/** The Secure Channel handshake on a lossy line: whenever the panel believes in
    a session, the device holds the same one. */
module Handshakes {
  import opened Bytes
  import opened Codes
  import opened Frames
  import opened Ciphers
  import opened Keys
  import opened Wrapping
  import opened EventQueues
  import opened Devices
  import opened Controllers
  import opened Exchanges
  import Accounting
  import Links

  type Line = Links.Line

  datatype Pair = Pair(slot: Slot, device: Device, line: Line)

  datatype Action =
    | Start(useDefault: bool, nonce: Result<Nonce>)
    | Send(code: byte, payload: seq<byte>)
    | CommandIn(app: App)
    | ReplyIn
    | Lose
    | Expire
    | PanelOffline
    | DeviceOffline
    | Queue(event: Event)

  function Sending(p: Pair, sent: Result<Sent>): Pair {
    match sent
    case Failure(_) => p
    case Success(s) => if p.line.Quiet? then p.(slot := s.slot, line := Links.ToDevice(s.wire)) else p
  }

  /** Any step of the two parties, with any answer of the application (BUSY
      included), any nonces, any commands between and during handshakes. */
  function Act(c: Cipher, cfg: Config, p: Pair, a: Action): Pair {
    match a
    case Start(useDefault, nonce) =>
      if !p.line.Quiet? then p
      else
        var s := StartHandshake(p.slot, useDefault, nonce);
        p.(slot := s.slot, line := if s.wire.Success? then Links.ToDevice(s.wire.value) else Links.Quiet)
    case Send(code, payload) => Sending(p, SendCommand(c, p.slot, code, payload))
    case CommandIn(app) =>
      if !p.line.ToDevice? then p
      else
        var step := Devices.Receive(c, cfg, p.device, Raw(p.line.wire), app);
        p.(device := step.device, line := if step.reply == [] then Links.Quiet else Links.ToPanel(step.reply))
    case ReplyIn =>
      if !p.line.ToPanel? then p
      else
        var r := Controllers.Receive(c, p.slot, Raw(p.line.wire));
        p.(slot := r.slot, line := if r.wire == [] then Links.Quiet else Links.ToDevice(r.wire))
    case Lose => p.(line := Links.Quiet)
    case Expire => if p.line.Quiet? then p.(slot := ReplyTimeout(p.slot)) else p
    case PanelOffline => p.(slot := OfflineTimeout(p.slot))
    case DeviceOffline => p.(device := GoOffline(p.device))
    case Queue(e) => p.(device := Offer(cfg, p.device, e))
  }

  function Run(c: Cipher, cfg: Config, p: Pair, actions: seq<Action>): Pair
    decreases |actions|
  {
    if actions == [] then p
    else Act(c, cfg, Run(c, cfg, p, actions[..|actions| - 1]), actions[|actions| - 1])
  }

  /** The base keys are not rotated during the run. */
  predicate NoKeyset(actions: seq<Action>) {
    forall i :: 0 <= i < |actions| ==> actions[i].Send? ==> actions[i].code != CMD_KEYSET
  }

  // ---- The invariant ----

  predicate SameBaseKeys(p: Pair) {
    p.slot.scbk == p.device.scbk && p.slot.scbkD == p.device.scbkD
  }

  /** The device took part in the handshake the slot is finishing. */
  predicate Paired(p: Pair) {
    && p.device.rndA == p.slot.rndA && p.device.rndB == p.slot.rndB
    && p.device.session.keys == p.slot.session.keys
  }

  predicate Engaged(d: Device) {
    d.session.established || d.gotChlng
  }

  predicate IsChallenge(f: Frame) {
    f.hasScb && f.scbType == 0x11
  }

  predicate IsOperational(f: Frame) {
    f.hasScb && (f.scbType == 0x15 || f.scbType == 0x17)
  }

  predicate IsCcrypt(f: Frame) {
    f.hasScb && f.scbType == 0x12
  }

  predicate IsAcceptingRmac(f: Frame) {
    f.hasScb && f.scbType == 0x14 && f.scbData != [] && f.scbData[0] == 0x01
  }

  /** A command on the line fits the slot's phase. */
  predicate CommandTruth(a: Slot, wire: seq<byte>) {
    && Decode(Raw(wire)).Success?
    && var f := Decode(Raw(wire)).value;
    && f.code != CMD_KEYSET
    && (a.phase == Phase.Established ==> IsOperational(f))
    && (a.phase == AwaitingCcrypt && IsChallenge(f) ==> f.payload == a.rndA)
    && (a.phase == AwaitingRmacI ==> !IsChallenge(f))
  }

  /** A handshake reply says what is true of the device that sent it. */
  predicate ReplyTruth(c: Cipher, d: Device, wire: seq<byte>) {
    && Decode(Raw(wire)).Success?
    && var f := Decode(Raw(wire)).value;
    && (IsCcrypt(f) ==>
          && d.gotChlng && f.scbData != [] && |f.payload| == 32 && f.payload[8..16] == d.rndB
          && Devices.HandshakeKey(d, f.scbData[0]).Some?
          && d.session.keys == Derive(c, Devices.HandshakeKey(d, f.scbData[0]).value, d.rndA)
          && f.payload[16..] == ClientCryptogram(c, d.session.keys.enc, d.rndA, d.rndB))
    && (IsAcceptingRmac(f) ==>
          |f.payload| == BLOCK && d.session == Session(d.session.keys, f.payload, f.payload, true))
  }

  /** The device's cache still describes the device. */
  predicate CacheTruth(c: Cipher, d: Device) {
    d.haveLast && d.lastCmd != [] ==>
      && Decode(d.lastCmd).Success?
      && (d.lastReply != [] ==>
            && ReplyTruth(c, d, d.lastReply)
            && Decode(Raw(d.lastReply)).value.sequence == Decode(d.lastCmd).value.sequence
            && (IsCcrypt(Decode(Raw(d.lastReply)).value) ==>
                  IsChallenge(Decode(d.lastCmd).value) && Decode(d.lastCmd).value.payload == d.rndA))
  }

  predicate PanelLineTruth(c: Cipher, p: Pair, wire: seq<byte>) {
    && ReplyTruth(c, p.device, wire)
    && var f := Decode(Raw(wire)).value;
    && (p.slot.phase == AwaitingCcrypt && IsCcrypt(f) ==> p.device.rndA == p.slot.rndA)
    && (p.device.haveLast && p.device.lastCmd != [] ==>
          Decode(p.device.lastCmd).Success? && Decode(p.device.lastCmd).value.sequence == f.sequence)
  }

  predicate LineTruth(c: Cipher, p: Pair) {
    match p.line
    case Quiet => true
    case ToDevice(w) => CommandTruth(p.slot, w)
    case ToPanel(w) => PanelLineTruth(c, p, w)
  }

  predicate Agreement(p: Pair) {
    p.slot.phase == Phase.Established ==>
      p.slot.session.established && p.device.session.established && p.slot.session.keys == p.device.session.keys
  }

  /** Under the slot's nonces, its base key and the device's give one client
      cryptogram. */
  predicate CryptogramsCoincide(c: Cipher, p: Pair) {
    && (if p.slot.selector == 1 then p.slot.scbk else p.slot.scbkD).Some?
    && Devices.HandshakeKey(p.device, p.slot.selector).Some?
    && var own := Derive(c, Controllers.HandshakeKey(p.slot), p.slot.rndA).enc;
       var other := Derive(c, Devices.HandshakeKey(p.device, p.slot.selector).value, p.slot.rndA).enc;
       && p.slot.session.keys.enc == own
       && c.encrypt(own, p.slot.rndA + p.slot.rndB) == c.encrypt(other, p.slot.rndA + p.slot.rndB)
  }

  predicate Invariant(c: Cipher, p: Pair) {
    && Accounting.InRange(p.slot) && p.device.newAddress.None?
    && (p.slot.phase == AwaitingRmacI || p.slot.phase == Phase.Established ==> CryptogramsCoincide(c, p))
    && (SameBaseKeys(p) ==>
          && Agreement(p)
          && (p.slot.phase == AwaitingRmacI && Engaged(p.device) ==> Paired(p)))
    && (Awaiting(p.slot) ==> p.slot.selector <= 1 && (if p.slot.selector == 1 then p.slot.scbk else p.slot.scbkD).Some?)
    && LineTruth(c, p)
    && CacheTruth(c, p.device)
  }

  // ---- The device's part ----

  /** What handling a new command may do to a device. */
  predicate Evolves(c: Cipher, d: Device, cmd: Frame, e: Device, reply: seq<byte>) {
    && e.scbk == d.scbk && e.scbkD == d.scbkD
    && (reply != [] ==> ReplyTruth(c, e, reply))
    && (reply != [] && IsCcrypt(Decode(Raw(reply)).value) ==> IsChallenge(cmd) && e.rndA == cmd.payload)
    && (IsOperational(cmd) && d.session.established ==> e.session.established && e.session.keys == d.session.keys)
    && (!IsChallenge(cmd) && Engaged(e) ==>
          Engaged(d) && e.rndA == d.rndA && e.rndB == d.rndB && e.session.keys == d.session.keys)
  }

  /** The sequence number a framed reply carries. */
  predicate MirrorsSequence(cmd: Frame, h: Handled) {
    h.reply != [] && h.cacheable ==>
      Decode(Raw(h.reply)).Success? && Decode(Raw(h.reply)).value.sequence == cmd.sequence
  }

  lemma {:induction false} PlainAnswerTruth(c: Cipher, cfg: Config, d: Device, cmd: Frame, f: Frame)
    requires !f.hasScb
    ensures var h := Framed(d, Build(f, cfg.txCap));
            && h.device == d && h.cacheable
            && (h.reply != [] ==> ReplyTruth(c, d, h.reply) && Decode(Raw(h.reply)).Success?
                                  && !IsCcrypt(Decode(Raw(h.reply)).value)
                                  && Decode(Raw(h.reply)).value.sequence == f.sequence)
  {
    hide Decode, Build;
    if Build(f, cfg.txCap).Success? {
      SpelledHeader(f, cfg.txCap);
    }
  }

  lemma {:induction false} DispatchKeepsSession(d: Device, channel: Channel, code: byte, payload: seq<byte>, app: App)
    requires code != CMD_KEYSET
    ensures var e := Dispatch(d, channel, code, payload, app).device;
            e == d.(newAddress := e.newAddress, queue := e.queue, log := e.log)
  {}

  lemma {:induction false} HandlePlainEvolves(c: Cipher, cfg: Config, d: Device, cmd: Frame, app: App)
    requires !cmd.hasScb && cmd.code != CMD_KEYSET
    ensures var h := HandlePlain(cfg, d, cmd, app);
            Evolves(c, d, cmd, h.device, h.reply) && MirrorsSequence(cmd, h)
  {
    hide Decode, Build, ReplyTruth, Dispatch;
    var refusal := Nak(NAK_ENCRYPTION_REQUIRED);
    PlainAnswerTruth(c, cfg, DropSession(d), cmd, PlainReply(cmd, refusal.code, refusal.payload));
    var d1 := if d.session.established then DropSession(d) else d;
    PlainAnswerTruth(c, cfg, d1, cmd, PlainReply(cmd, refusal.code, refusal.payload));
    DispatchKeepsSession(d1, Plain, cmd.code, cmd.payload, app);
    var x := Dispatch(d1, Plain, cmd.code, cmd.payload, app);
    PlainAnswerTruth(c, cfg, x.device, cmd, PlainReply(cmd, REPLY_BUSY, []).(sequence := 0));
    if x.result.Reply? {
      PlainAnswerTruth(c, cfg, x.device, cmd, PlainReply(cmd, x.result.code, x.result.payload));
    }
  }

  lemma {:induction false} NakEvolves(c: Cipher, cfg: Config, d: Device, cmd: Frame, code: byte)
    ensures var h := AnswerPlain(cfg, d, cmd, Nak(code));
            h.device == d && Evolves(c, d, cmd, h.device, h.reply) && MirrorsSequence(cmd, h)
  {
    hide Decode, Build, ReplyTruth;
    PlainAnswerTruth(c, cfg, d, cmd, PlainReply(cmd, REPLY_NAK, [code]));
  }

  lemma {:induction false} HandleChlngEvolves(c: Cipher, cfg: Config, d: Device, cmd: Frame, app: App)
    requires IsChallenge(cmd)
    ensures var h := HandleChlng(c, cfg, d, cmd, app);
            Evolves(c, d, cmd, h.device, h.reply) && MirrorsSequence(cmd, h)
  {
    hide Decode, Build, Derive, ClientCryptogram;
    NakEvolves(c, cfg, d, cmd, NAK_UNKNOWN_CMD);
    NakEvolves(c, cfg, d, cmd, NAK_CMD_LENGTH);
    NakEvolves(c, cfg, d, cmd, NAK_UNSUPPORTED_SCB);
    if cmd.code == CMD_CHLNG && |cmd.payload| == RND_LEN && cmd.scbData != []
       && Devices.HandshakeKey(d, cmd.scbData[0]).Some? && app.nonce.Some? {
      var rndB := app.nonce.value;
      var keys := Derive(c, Devices.HandshakeKey(d, cmd.scbData[0]).value, cmd.payload);
      var payload := cfg.cuid + rndB + ClientCryptogram(c, keys.enc, cmd.payload, rndB);
      assert payload[8..16] == rndB;
      var f := Devices.HandshakeReply(d, cmd, 0x12, cmd.scbData[0], REPLY_CCRYPT, payload);
      if Build(f, cfg.txCap).Success? {
        SpelledHeader(f, cfg.txCap);
      }
    }
  }

  lemma {:induction false} HandleScryptEvolves(c: Cipher, cfg: Config, d: Device, cmd: Frame)
    requires cmd.hasScb && cmd.scbType == 0x13
    ensures var h := HandleScrypt(c, cfg, d, cmd);
            Evolves(c, d, cmd, h.device, h.reply) && MirrorsSequence(cmd, h)
  {
    hide Decode, Build, ServerCryptogram, InitialRmac;
    NakEvolves(c, cfg, d, cmd, NAK_UNKNOWN_CMD);
    NakEvolves(c, cfg, d, cmd, NAK_CMD_LENGTH);
    NakEvolves(c, cfg, d, cmd, NAK_UNSUPPORTED_SCB);
    if |cmd.payload| == BLOCK {
      var f := Devices.HandshakeReply(d, cmd, 0x14, 0x01, REPLY_RMAC_I, InitialRmac(c, d.session.keys, cmd.payload));
      if Build(f, cfg.txCap).Success? { SpelledHeader(f, cfg.txCap); }
      var g := Devices.HandshakeReply(d, cmd, 0x14, 0xFF, REPLY_RMAC_I, []);
      if Build(g, cfg.txCap).Success? { SpelledHeader(g, cfg.txCap); }
    }
  }

  lemma {:induction false} WrappedReplyTruth(c: Cipher, s: Session, d: Device, cmd: Frame, code: byte, payload: seq<byte>, cap: nat)
    requires Wrap(c, s, SecureReply(cmd, code, payload), cap).Success?
    ensures var w := Wrap(c, s, SecureReply(cmd, code, payload), cap).value.wire;
            w != [] && ReplyTruth(c, d, w) && Decode(Raw(w)).Success? && !IsCcrypt(Decode(Raw(w)).value)
            && Decode(Raw(w)).value.sequence == cmd.sequence
  {
    hide Decode, Build, Wrap, Final;
    var f := SecureReply(cmd, code, payload);
    WrapIsBuild(c, s, f, cap);
    WrapTypes(c, s, f, cap);
    FinalFields(c, s, f, cap);
    SpelledHeader(Final(c, s, f, cap), cap);
  }

  lemma {:induction false} HandleOperationalEvolves(c: Cipher, cfg: Config, d: Device, cmd: Frame, raw: seq<byte>, app: App)
    requires IsOperational(cmd) && cmd.code != CMD_KEYSET
    ensures var h := HandleOperational(c, cfg, d, cmd, raw, app);
            Evolves(c, d, cmd, h.device, h.reply) && MirrorsSequence(cmd, h)
  {
    hide Decode, Build, Wrap, Unwrap, ReplyTruth, Dispatch;
    NakEvolves(c, cfg, d, cmd, NAK_UNSUPPORTED_SCB);
    match Unwrap(c, d.session, cmd, raw, cfg.plainCap)
    case Failure(_) =>
    case Success(u) =>
      var d1 := d.(session := AfterUnwrap(d.session, u));
      DispatchKeepsSession(d1, Secure, cmd.code, u.plain, app);
      var x := Dispatch(d1, Secure, cmd.code, u.plain, app);
      PlainAnswerTruth(c, cfg, x.device, cmd, PlainReply(cmd, REPLY_BUSY, []).(sequence := 0));
      if x.result.Reply? && Wrap(c, x.device.session, SecureReply(cmd, x.result.code, x.result.payload), cfg.txCap).Success? {
        var w := Wrap(c, x.device.session, SecureReply(cmd, x.result.code, x.result.payload), cfg.txCap).value;
        WrappedReplyTruth(c, x.device.session, x.device.(session := AfterWrap(x.device.session, w)), cmd,
                          x.result.code, x.result.payload, cfg.txCap);
      }
  }

  lemma {:induction false} HandleEvolves(c: Cipher, cfg: Config, d: Device, cmd: Frame, raw: seq<byte>, app: App)
    requires cmd.code != CMD_KEYSET
    ensures var h := Handle(c, cfg, d, cmd, raw, app);
            Evolves(c, d, cmd, h.device, h.reply) && MirrorsSequence(cmd, h)
  {
    hide HandlePlain, HandleChlng, HandleScrypt, HandleOperational, Evolves, MirrorsSequence;
    NakEvolves(c, cfg, d, cmd, NAK_UNSUPPORTED_SCB);
    if !cmd.hasScb { HandlePlainEvolves(c, cfg, d, cmd, app); }
    if IsChallenge(cmd) { HandleChlngEvolves(c, cfg, d, cmd, app); }
    if cmd.hasScb && cmd.scbType == 0x13 { HandleScryptEvolves(c, cfg, d, cmd); }
    if IsOperational(cmd) { HandleOperationalEvolves(c, cfg, d, cmd, raw, app); }
  }

  /** Remembering a command, or not, keeps the cache truthful. */
  lemma {:induction false} ProcessedTruth(c: Cipher, cfg: Config, d: Device, cmd: Frame, raw: seq<byte>, h: Handled)
    requires Decode(raw) == Success(cmd) && Evolves(c, d, cmd, h.device, h.reply) && MirrorsSequence(cmd, h)
    ensures var d1 := if h.cacheable then Remember(cfg, h.device, raw, h.reply) else h.device.(haveLast := false);
            var e := ApplyComset(d1);
            && e.newAddress.None? && CacheTruth(c, e)
            && Evolves(c, d, cmd, e, h.reply)
            && (e.haveLast && e.lastCmd != [] ==>
                  e.lastCmd == raw && (h.reply != [] ==> Decode(Raw(h.reply)).value.sequence == cmd.sequence))
  {
    hide Decode, Derive;
  }

  /** One command at the device. */
  lemma {:induction false} ReceiveTruth(c: Cipher, cfg: Config, d: Device, raw: seq<byte>, app: App)
    requires Decode(raw).Success? && Decode(raw).value.code != CMD_KEYSET
    requires d.newAddress.None? && CacheTruth(c, d)
    ensures var cmd := Decode(raw).value;
            var step := Devices.Receive(c, cfg, d, raw, app);
            var e := step.device;
            && e.newAddress.None? && CacheTruth(c, e) && Evolves(c, d, cmd, e, step.reply)
            && (step.reply != [] && e.haveLast && e.lastCmd != [] ==>
                  Decode(e.lastCmd).Success? &&
                  Decode(e.lastCmd).value.sequence == Decode(Raw(step.reply)).value.sequence)
  {
    hide Decode, Handle, ReplyTruth;
    var cmd := Decode(raw).value;
    if !cmd.reply && (cmd.address == d.address || cmd.address == BROADCAST) {
      if IsRetransmit(d, cmd, raw) {
        ReplayEvolves(c, d, cmd, raw);
      } else {
        var h := Handle(c, cfg, d, cmd, raw, app);
        HandleEvolves(c, cfg, d, cmd, raw, app);
        ProcessedTruth(c, cfg, d, cmd, raw, h);
      }
    }
  }

  lemma {:induction false} ReplayEvolves(c: Cipher, d: Device, cmd: Frame, raw: seq<byte>)
    requires Decode(raw) == Success(cmd) && CacheTruth(c, d) && IsRetransmit(d, cmd, raw)
    ensures d.lastReply != [] ==> Decode(Raw(d.lastReply)).Success?
    ensures Evolves(c, d, cmd, d, d.lastReply)
  {
    hide Decode, Derive;
  }

  // ---- Preservation ----

  lemma {:induction false} CommandInKeeps(c: Cipher, cfg: Config, p: Pair, app: App)
    requires Invariant(c, p)
    ensures Invariant(c, Act(c, cfg, p, CommandIn(app)))
  {
    hide Decode, Devices.Receive, ReplyTruth;
    if p.line.ToDevice? {
      ReceiveTruth(c, cfg, p.device, Raw(p.line.wire), app);
    }
  }

  lemma {:induction false} StartKeeps(c: Cipher, cfg: Config, p: Pair, useDefault: bool, nonce: Result<Nonce>)
    requires Invariant(c, p)
    ensures Invariant(c, Act(c, cfg, p, Start(useDefault, nonce)))
  {
    hide Decode, Build, ReplyTruth;
    if p.line.Quiet? && StartHandshake(p.slot, useDefault, nonce).wire.Success? {
      var rndA := nonce.value;
      SpelledHeader(HandshakeFrame(Prepared(p.slot, useDefault, rndA), 0x11, CMD_CHLNG, rndA), Controllers.BUF_LEN);
    }
  }

  lemma {:induction false} SendKeeps(c: Cipher, cfg: Config, p: Pair, code: byte, payload: seq<byte>)
    requires Invariant(c, p) && code != CMD_KEYSET
    ensures Invariant(c, Act(c, cfg, p, Send(code, payload)))
  {
    hide Decode, CommandWire, ReplyTruth;
    if SendCommand(c, p.slot, code, payload).Success? {
      CommandArrives(c, p.slot, code, payload);
    }
  }

  /** The slot after a CCRYPT that tells the truth: paired, or failed. */
  lemma {:induction false} CcryptKeeps(c: Cipher, p: Pair, f: Frame)
    requires Invariant(c, p) && p.slot.phase == AwaitingCcrypt && IsCcrypt(f)
    requires p.line.ToPanel? && Decode(Raw(p.line.wire)) == Success(f)
    ensures var r := CcryptIn(c, p.slot, f);
            Invariant(c, p.(slot := r.slot, line := if r.wire == [] then Links.Quiet else Links.ToDevice(r.wire)))
  {
    hide Decode, Build, Derive, ServerCryptogram;
    Accounting.CcryptInRange(c, p.slot, f);
    if f.sequence == p.slot.pendingSeq && |f.payload| == 32 {
      var rndB: Nonce := f.payload[8..16];
      var keys := Derive(c, Controllers.HandshakeKey(p.slot), p.slot.rndA);
      var b := StopWaiting(p.slot).(rndB := rndB, session := p.slot.session.(keys := keys), nextSeq := Advance(p.slot.pendingSeq));
      var g := HandshakeFrame(b, 0x13, CMD_SCRYPT, ServerCryptogram(c, keys.enc, p.slot.rndA, rndB));
      if Build(g, Controllers.BUF_LEN).Success? {
        SpelledHeader(g, Controllers.BUF_LEN);
      }
    }
  }

  /** The slot after an RMAC_I: with the very session of the device, or failed. */
  lemma {:induction false} RmacKeeps(c: Cipher, p: Pair, f: Frame)
    requires Invariant(c, p) && p.slot.phase == AwaitingRmacI && f.hasScb && f.scbType == 0x14
    requires p.line.ToPanel? && Decode(Raw(p.line.wire)) == Success(f)
    ensures var a := RmacIn(c, p.slot, f);
            && Invariant(c, p.(slot := a, line := Links.Quiet))
            && (SameBaseKeys(p) && a.phase == Phase.Established ==> a.session == p.device.session)
  {
    hide Decode, ServerCryptogram, Derive;
  }

  lemma {:induction false} OtherReplyKeeps(c: Cipher, p: Pair, f: Frame)
    requires Invariant(c, p) && p.line.ToPanel? && Decode(Raw(p.line.wire)) == Success(f)
    requires !(IsCcrypt(f) && p.slot.phase == AwaitingCcrypt)
    requires !(f.hasScb && f.scbType == 0x14 && p.slot.phase == AwaitingRmacI)
    ensures var r := Controllers.Receive(c, p.slot, Raw(p.line.wire));
            && r.wire == [] && Invariant(c, p.(slot := r.slot, line := Links.Quiet))
            && (r.slot.phase == Phase.Established ==> p.slot.phase == Phase.Established)
  {
    hide Decode, Unwrap, Derive;
    Accounting.ReceiveInRange(c, p.slot, Raw(p.line.wire));
  }

  lemma {:induction false} ReplyInKeeps(c: Cipher, cfg: Config, p: Pair)
    requires Invariant(c, p)
    ensures var t := Act(c, cfg, p, ReplyIn);
            && Invariant(c, t)
            && (SameBaseKeys(p) && p.slot.phase != Phase.Established && t.slot.phase == Phase.Established ==>
                  t.slot.session == t.device.session)
  {
    hide Decode, Invariant, CcryptIn, RmacIn, PlainReplyIn, SecureReplyIn;
    if p.line.ToPanel? {
      LineDecodes(c, p);
      var f := Decode(Raw(p.line.wire)).value;
      if IsCcrypt(f) && p.slot.phase == AwaitingCcrypt {
        CcryptKeeps(c, p, f);
        CcryptNotEstablished(c, p.slot, f);
        IgnoredReplyKeeps(c, p);
      } else if f.hasScb && f.scbType == 0x14 && p.slot.phase == AwaitingRmacI {
        RmacKeeps(c, p, f);
        IgnoredReplyKeeps(c, p);
      } else {
        OtherReplyKeeps(c, p, f);
      }
    }
  }

  lemma {:induction false} LineDecodes(c: Cipher, p: Pair)
    requires Invariant(c, p) && !p.line.Quiet?
    ensures Decode(Raw(p.line.wire)).Success?
  {
    hide Decode;
  }

  lemma {:induction false} IgnoredReplyKeeps(c: Cipher, p: Pair)
    requires Invariant(c, p)
    ensures Invariant(c, p.(line := Links.Quiet))
  {
    hide Decode, CacheTruth;
  }

  lemma {:induction false} CcryptNotEstablished(c: Cipher, a: Slot, f: Frame)
    requires a.phase == AwaitingCcrypt
    ensures CcryptIn(c, a, f).slot.phase != Phase.Established
  {
    hide Build, Derive, ClientCryptogram, ServerCryptogram;
  }

  lemma {:induction false} PanelOfflineKeeps(c: Cipher, cfg: Config, p: Pair)
    requires Invariant(c, p)
    ensures Invariant(c, Act(c, cfg, p, PanelOffline))
  {
    hide Decode, ReplyTruth, CacheTruth;
  }

  lemma {:induction false} QuietStepsKeep(c: Cipher, cfg: Config, p: Pair, a: Action)
    requires Invariant(c, p) && (a.Lose? || a.Expire? || a.DeviceOffline? || a.Queue?)
    ensures Invariant(c, Act(c, cfg, p, a))
  {
    hide Decode, Derive, Packed;
  }

  lemma {:induction false} ActKeeps(c: Cipher, cfg: Config, p: Pair, a: Action)
    requires Invariant(c, p) && (a.Send? ==> a.code != CMD_KEYSET)
    ensures Invariant(c, Act(c, cfg, p, a))
    ensures SameBaseKeys(p) && p.slot.phase != Phase.Established && Act(c, cfg, p, a).slot.phase == Phase.Established ==>
              Act(c, cfg, p, a).slot.session == Act(c, cfg, p, a).device.session
  {
    hide Invariant;
    match a
    case Start(useDefault, nonce) => StartKeeps(c, cfg, p, useDefault, nonce); NoEntry(c, cfg, p, a);
    case Send(code, payload) => SendKeeps(c, cfg, p, code, payload); NoEntry(c, cfg, p, a);
    case CommandIn(app) => CommandInKeeps(c, cfg, p, app); NoEntry(c, cfg, p, a);
    case ReplyIn => ReplyInKeeps(c, cfg, p);
    case Lose => QuietStepsKeep(c, cfg, p, a); NoEntry(c, cfg, p, a);
    case Expire => QuietStepsKeep(c, cfg, p, a); NoEntry(c, cfg, p, a);
    case PanelOffline => PanelOfflineKeeps(c, cfg, p); NoEntry(c, cfg, p, a);
    case DeviceOffline => QuietStepsKeep(c, cfg, p, a); NoEntry(c, cfg, p, a);
    case Queue(e) => QuietStepsKeep(c, cfg, p, a); NoEntry(c, cfg, p, a);
  }

  /** Only a reply can bring the slot into a session. */
  lemma {:induction false} NoEntry(c: Cipher, cfg: Config, p: Pair, a: Action)
    requires !a.ReplyIn?
    ensures Act(c, cfg, p, a).slot.phase == Phase.Established ==> p.slot.phase == Phase.Established
  {
    hide Build, CommandWire, Devices.Receive;
  }

  /** A registered slot and a device without session, on a quiet line. */
  predicate Fresh(p: Pair) {
    && Accounting.InRange(p.slot) && p.slot.phase == Idle && p.line.Quiet?
    && p.device.newAddress.None? && !p.device.haveLast && !Engaged(p.device)
  }

  lemma {:induction false} RunKeeps(c: Cipher, cfg: Config, p: Pair, actions: seq<Action>)
    requires Fresh(p) && NoKeyset(actions)
    ensures Invariant(c, Run(c, cfg, p, actions))
    decreases |actions|
  {
    hide Act, Decode;
    if actions != [] {
      var n := |actions| - 1;
      RunKeeps(c, cfg, p, actions[..n]);
      ActKeeps(c, cfg, Run(c, cfg, p, actions[..n]), actions[n]);
    }
  }

  /** No step of such a run touches a base key. */
  lemma {:induction false} ActKeepsBaseKeys(c: Cipher, cfg: Config, p: Pair, a: Action)
    requires Invariant(c, p) && (a.Send? ==> a.code != CMD_KEYSET)
    ensures var t := Act(c, cfg, p, a);
            && t.slot.scbk == p.slot.scbk && t.slot.scbkD == p.slot.scbkD
            && t.device.scbk == p.device.scbk && t.device.scbkD == p.device.scbkD
  {
    hide Decode, CommandWire, Build, Devices.Receive, Controllers.Receive, ReplyTruth, CacheTruth, Packed, CryptogramsCoincide;
    if a.CommandIn? && p.line.ToDevice? {
      ReceiveTruth(c, cfg, p.device, Raw(p.line.wire), a.app);
    }
    if a.ReplyIn? && p.line.ToPanel? {
      PanelKeysStay(c, p.slot, Raw(p.line.wire));
    }
  }

  predicate SameKeysSet(a: Slot, b: Slot) {
    b.scbk == a.scbk && b.scbkD == a.scbkD
  }

  lemma {:induction false} PanelKeysStay(c: Cipher, a: Slot, raw: seq<byte>)
    ensures SameKeysSet(a, Controllers.Receive(c, a, raw).slot)
  {
    hide Decode, CcryptIn, PlainReplyIn, RmacIn, SecureReplyIn;
    match Decode(raw)
    case Failure(_) =>
    case Success(f) =>
      CcryptKeysStay(c, a, f);
      RepliesKeysStay(c, a, f, raw);
  }

  lemma {:induction false} CcryptKeysStay(c: Cipher, a: Slot, f: Frame)
    ensures SameKeysSet(a, CcryptIn(c, a, f).slot)
  {
    hide Build, Derive, ClientCryptogram, ServerCryptogram;
  }

  lemma {:induction false} RepliesKeysStay(c: Cipher, a: Slot, f: Frame, raw: seq<byte>)
    ensures SameKeysSet(a, PlainReplyIn(a, f)) && SameKeysSet(a, RmacIn(c, a, f)) && SameKeysSet(a, SecureReplyIn(c, a, f, raw))
  {
    hide Unwrap, InitialRmac, ServerCryptogram;
  }

  lemma {:induction false} BaseKeysStay(c: Cipher, cfg: Config, p: Pair, actions: seq<Action>)
    requires Fresh(p) && NoKeyset(actions)
    ensures var t := Run(c, cfg, p, actions);
            && t.slot.scbk == p.slot.scbk && t.slot.scbkD == p.slot.scbkD
            && t.device.scbk == p.device.scbk && t.device.scbkD == p.device.scbkD
    decreases |actions|
  {
    hide Act, Invariant;
    if actions != [] {
      var n := |actions| - 1;
      BaseKeysStay(c, cfg, p, actions[..n]);
      RunKeeps(c, cfg, p, actions[..n]);
      ActKeepsBaseKeys(c, cfg, Run(c, cfg, p, actions[..n]), actions[n]);
    }
  }

  /** The handshake tells base keys apart. Whatever base keys the two sides hold,
      after every run a slot that has accepted the device's cryptogram, or has a
      session, shares with the device a base key whose S-ENC gives the same
      cryptogram for the nonces of the handshake. */
  lemma {:induction false} SessionNeedsCryptogram(c: Cipher, cfg: Config, p: Pair, actions: seq<Action>)
    requires Fresh(p) && NoKeyset(actions)
    ensures var t := Run(c, cfg, p, actions);
            t.slot.phase == AwaitingRmacI || t.slot.phase == Phase.Established ==> CryptogramsCoincide(c, t)
  {
    hide Act, Decode;
    RunKeeps(c, cfg, p, actions);
  }

  /** So sides whose cryptograms never coincide never enter a session. */
  lemma {:induction false} ForeignKeysNeverMeet(c: Cipher, cfg: Config, p: Pair, actions: seq<Action>)
    requires Fresh(p) && NoKeyset(actions)
    requires forall selector: byte, rndA: Nonce, rndB: Nonce :: KeysDistinguished(c, p, selector, rndA, rndB)
    ensures var t := Run(c, cfg, p, actions); t.slot.phase == Idle || t.slot.phase == AwaitingCcrypt
  {
    hide Act, Decode, Derive, LineTruth, CacheTruth;
    RunKeeps(c, cfg, p, actions);
    BaseKeysStay(c, cfg, p, actions);
    var t := Run(c, cfg, p, actions);
    assert KeysDistinguished(c, p, t.slot.selector, t.slot.rndA, t.slot.rndB);
  }

  /** For these nonces the two sides' keys under the selector give different
      client cryptograms. */
  predicate KeysDistinguished(c: Cipher, p: Pair, selector: byte, rndA: Nonce, rndB: Nonce) {
    var own := if selector == 1 then p.slot.scbk else p.slot.scbkD;
    var other := Devices.HandshakeKey(p.device, selector);
    own.Some? && other.Some? ==>
      ClientCryptogram(c, Derive(c, own.value, rndA).enc, rndA, rndB) !=
      ClientCryptogram(c, Derive(c, other.value, rndA).enc, rndA, rndB)
  }

  /** Handshake agreement. After every run, a slot in ESTABLISHED means that the
      device is established with the same session keys; and a step that enters
      ESTABLISHED leaves both sides with one and the same session, both MAC
      fields of which are the initial R-MAC. */
  lemma {:induction false} HandshakeAgreement(c: Cipher, cfg: Config, p: Pair, actions: seq<Action>, a: Action)
    requires Fresh(p) && SameBaseKeys(p) && NoKeyset(actions + [a])
    ensures var t := Run(c, cfg, p, actions);
            var u := Run(c, cfg, p, actions + [a]);
            && Agreement(t) && Agreement(u)
            && (t.slot.phase != Phase.Established && u.slot.phase == Phase.Established ==>
                  && u.slot.session == u.device.session
                  && u.slot.session.lastInbound == u.slot.session.lastOutbound == RmacOf(c, t.slot))
  {
    hide Act, Decode, CacheTruth;
    var t := Run(c, cfg, p, actions);
    assert (actions + [a])[..|actions|] == actions && (actions + [a])[|actions|] == a;
    assert NoKeyset(actions) by {
      forall i | 0 <= i < |actions| ensures actions[i].Send? ==> actions[i].code != CMD_KEYSET {
        assert (actions + [a])[i] == actions[i];
      }
    }
    RunKeeps(c, cfg, p, actions);
    RunKeeps(c, cfg, p, actions + [a]);
    BaseKeysStay(c, cfg, p, actions);
    BaseKeysStay(c, cfg, p, actions + [a]);
    ActKeeps(c, cfg, t, a);
    if t.slot.phase != Phase.Established && Act(c, cfg, t, a).slot.phase == Phase.Established {
      EntrySeedsChain(c, cfg, t, a);
    }
  }

  /** The initial R-MAC the slot computes from its own keys and nonces. */
  function RmacOf(c: Cipher, a: Slot): Block {
    InitialRmac(c, a.session.keys, ServerCryptogram(c, a.session.keys.enc, a.rndA, a.rndB))
  }

  lemma {:induction false} EntrySeedsChain(c: Cipher, cfg: Config, p: Pair, a: Action)
    requires p.slot.phase != Phase.Established && Act(c, cfg, p, a).slot.phase == Phase.Established
    ensures var s := Act(c, cfg, p, a).slot.session;
            s.lastInbound == s.lastOutbound == RmacOf(c, p.slot)
  {
    hide Decode, CommandWire, Build, Devices.Receive, InitialRmac, ServerCryptogram, SecureReplyIn, CcryptIn;
    if a.ReplyIn? && p.line.ToPanel? {
      match Decode(Raw(p.line.wire))
      case Failure(_) =>
      case Success(f) =>
        if p.slot.phase == AwaitingCcrypt { CcryptNotEstablished(c, p.slot, f); }
    } else {
      if !a.ReplyIn? { NoEntry(c, cfg, p, a); }
    }
  }

  /** The pair as the start of a run of secured exchanges, with empty records. */
  function AsLink(p: Pair): Links.System {
    Links.System(p.slot.(answers := []), p.device.(log := [], accepted := p.device.queue), p.line, None, [])
  }

  lemma {:induction false} SequenceOf(b: seq<byte>)
    requires Decode(b).Success?
    ensures |b| > 4 && Decode(b).value.sequence == b[4] % 4
  {
    hide CheckBytes, Le16;
  }

  /** Entering ESTABLISHED is a legitimate start for the lockstep, execution and
      event theorems. */
  lemma {:induction false} EntryStartsLink(c: Cipher, cfg: Config, p: Pair, a: Action)
    requires Invariant(c, p) && SameBaseKeys(p) && (a.Send? ==> a.code != CMD_KEYSET)
    requires p.slot.phase != Phase.Established && Act(c, cfg, p, a).slot.phase == Phase.Established
    requires p.slot.address == p.device.address
    requires forall i :: 0 <= i < |p.device.queue| ==> |p.device.queue[i].payload| <= SCRATCH_LEN
    ensures Links.Start(AsLink(Act(c, cfg, p, a)))
  {
    hide Decode, CommandWire, Build, Devices.Receive, InitialRmac, ServerCryptogram, SecureReplyIn, CcryptIn, Derive;
    ActKeeps(c, cfg, p, a);
    if !a.ReplyIn? {
      NoEntry(c, cfg, p, a);
    }
    LineDecodes(c, p);
    var f := Decode(Raw(p.line.wire)).value;
    if p.slot.phase == AwaitingCcrypt {
      CcryptNotEstablished(c, p.slot, f);
    }
    if p.device.haveLast && p.device.lastCmd != [] {
      SequenceOf(p.device.lastCmd);
    }
  }
}
