/** A handshake on a line that loses nothing ends in a session on both sides. */
module Completions {
  import opened Bytes
  import opened Codes
  import opened Frames
  import opened Ciphers
  import opened Keys
  import opened Wrapping
  import opened Devices
  import opened Controllers
  import opened Exchanges
  import opened Handshakes
  import Accounting
  import Links

  /** The longest handshake frame: CCRYPT with a CRC, marking byte included. */
  const LONGEST := 44

  predicate HandshakeShape(f: Frame) {
    && f.address < 128 && f.sequence < 4 && f.hasScb && f.scbLength == 3 && |f.scbData| == 1
    && 0x11 <= f.scbType <= 0x14 && f.mac == [] && |f.payload| <= 32
  }

  /** Such a frame fits and is read back as it was written. */
  lemma {:induction false} HandshakeFrameFits(f: Frame, cap: nat)
    requires HandshakeShape(f) && cap >= LONGEST
    ensures Build(f, cap).Success?
    ensures var wire := Build(f, cap).value;
            wire != [] && |Raw(wire)| > 4 && Raw(wire)[4] % 4 == f.sequence && Decode(Raw(wire)) == Success(f)
  {
    hide FrameBytes, Decode;
    SpelledHeader(f, cap);
  }

  /** The base key both sides use. */
  function BaseKey(a: Slot, useDefault: bool): Option<Block> {
    if useDefault then a.scbkD else a.scbk
  }

  function Selector(useDefault: bool): byte {
    if useDefault then 0 else 1
  }

  // ---- The four messages ----

  function ChlngFrame(a: Slot, useDefault: bool, rndA: Nonce): Frame {
    HandshakeFrame(Prepared(a, useDefault, rndA), 0x11, CMD_CHLNG, rndA)
  }

  function CcryptFrame(c: Cipher, cfg: Config, d: Device, cmd: Frame, key: Block, rndA: Nonce, rndB: Nonce): Frame
    requires cmd.scbData != []
  {
    HandshakeReply(d, cmd, 0x12, cmd.scbData[0], REPLY_CCRYPT,
                   cfg.cuid + rndB + ClientCryptogram(c, Derive(c, key, rndA).enc, rndA, rndB))
  }

  lemma {:induction false} ChallengeGoesOut(c: Cipher, cfg: Config, p: Pair, useDefault: bool, rndA: Nonce)
    requires Accounting.InRange(p.slot) && !p.slot.waiting && p.line.Quiet? && BaseKey(p.slot, useDefault).Some?
    ensures var q := Act(c, cfg, p, Start(useDefault, Success(rndA)));
            && q.device == p.device && q.line.ToDevice?
            && Decode(Raw(q.line.wire)) == Success(ChlngFrame(p.slot, useDefault, rndA))
            && q.slot.address == p.slot.address && q.slot.integrity == p.slot.integrity
            && q.slot.phase == AwaitingCcrypt && q.slot.rndA == rndA && q.slot.selector == Selector(useDefault)
            && q.slot.pendingSeq == q.slot.nextSeq % 4 == p.slot.nextSeq % 4
            && q.slot.scbk == p.slot.scbk && q.slot.scbkD == p.slot.scbkD
  {
    hide Build, Decode;
    HandshakeFrameFits(ChlngFrame(p.slot, useDefault, rndA), Controllers.BUF_LEN);
  }

  /** The device's answer to a challenge it does not remember. */
  lemma {:induction false} ChallengeIsAnswered(c: Cipher, cfg: Config, d: Device, cmd: Frame, raw: seq<byte>, app: App)
    requires Decode(raw) == Success(cmd) && HandshakeShape(cmd) && !cmd.reply
    requires cmd.scbType == 0x11 && cmd.code == CMD_CHLNG && |cmd.payload| == RND_LEN
    requires cmd.address == d.address && d.newAddress.None? && !IsRetransmit(d, cmd, raw)
    requires cfg.txCap >= LONGEST && cfg.cryptoReady && cfg.hasRandom && app.nonce.Some?
    requires Devices.HandshakeKey(d, cmd.scbData[0]).Some?
    ensures var step := Devices.Receive(c, cfg, d, raw, app);
            var key := Devices.HandshakeKey(d, cmd.scbData[0]).value;
            && step.reply != []
            && Decode(Raw(step.reply)) == Success(CcryptFrame(c, cfg, d, cmd, key, cmd.payload, app.nonce.value))
            && step.device.gotChlng && step.device.address == d.address && step.device.newAddress.None?
            && step.device.rndA == cmd.payload && step.device.rndB == app.nonce.value
            && step.device.session.keys == Derive(c, key, cmd.payload)
            && step.device.scbk == d.scbk && step.device.scbkD == d.scbkD
            && (step.device.lastCmd == raw || step.device.lastCmd == [])
  {
    hide Build, Decode, Derive, ClientCryptogram;
    var key := Devices.HandshakeKey(d, cmd.scbData[0]).value;
    HandshakeFrameFits(CcryptFrame(c, cfg, d, cmd, key, cmd.payload, app.nonce.value), cfg.txCap);
  }

  function ScryptFrame(c: Cipher, a: Slot, keys: SessionKeys, rndB: Nonce): Frame {
    HandshakeFrame(Keyed(a, keys, rndB), 0x13, CMD_SCRYPT, ServerCryptogram(c, keys.enc, a.rndA, rndB))
  }

  /** The panel accepts the device's cryptogram and sends its own. */
  lemma {:induction false} CcryptIsAccepted(c: Cipher, cfg: Config, a: Slot, d: Device, cmd: Frame, key: Block, rndB: Nonce, raw: seq<byte>)
    requires a.address < 128 && a.pendingSeq < 4 && a.phase == AwaitingCcrypt
    requires cmd.scbData == [a.selector] && cmd.sequence == a.pendingSeq && d.address == a.address
    requires Controllers.HandshakeKey(a) == key
    requires Decode(raw) == Success(CcryptFrame(c, cfg, d, cmd, key, a.rndA, rndB))
    ensures var keys := Derive(c, key, a.rndA);
            var r := Controllers.Receive(c, a, raw);
            && r.wire != [] && Decode(Raw(r.wire)) == Success(ScryptFrame(c, a, keys, rndB))
            && |Raw(r.wire)| > 4 && Raw(r.wire)[4] % 4 == Advance(a.pendingSeq)
            && r.slot.phase == AwaitingRmacI && r.slot.address == a.address
            && r.slot.pendingSeq == Advance(a.pendingSeq)
            && r.slot.rndA == a.rndA && r.slot.rndB == rndB && r.slot.session.keys == keys
  {
    hide Build, Decode, Derive, ClientCryptogram, ServerCryptogram;
    var f := CcryptFrame(c, cfg, d, cmd, key, a.rndA, rndB);
    var client := ClientCryptogram(c, Derive(c, key, a.rndA).enc, a.rndA, rndB);
    assert f.payload == cfg.cuid + rndB + client;
    assert f.payload[8..16] == rndB && f.payload[16..] == client;
    HandshakeFrameFits(ScryptFrame(c, a, Derive(c, key, a.rndA), rndB), Controllers.BUF_LEN);
  }

  function RmacFrame(d: Device, cmd: Frame, rmac: Block): Frame {
    HandshakeReply(d, cmd, 0x14, 0x01, REPLY_RMAC_I, rmac)
  }

  /** The device accepts the panel's cryptogram and opens its session. */
  lemma {:induction false} ScryptIsAnswered(c: Cipher, cfg: Config, d: Device, cmd: Frame, raw: seq<byte>, app: App)
    requires Decode(raw) == Success(cmd) && HandshakeShape(cmd) && !cmd.reply
    requires cmd.scbType == 0x13 && cmd.code == CMD_SCRYPT && cmd.address == d.address
    requires cmd.payload == ServerCryptogram(c, d.session.keys.enc, d.rndA, d.rndB)
    requires d.newAddress.None? && d.gotChlng && !IsRetransmit(d, cmd, raw)
    requires cfg.txCap >= LONGEST && ScConfigured(cfg, d)
    ensures var step := Devices.Receive(c, cfg, d, raw, app);
            var rmac := InitialRmac(c, d.session.keys, cmd.payload);
            && step.reply != [] && Decode(Raw(step.reply)) == Success(RmacFrame(d, cmd, rmac))
            && step.device.session == Session(d.session.keys, rmac, rmac, true)
  {
    hide Build, Decode, ServerCryptogram, InitialRmac;
    HandshakeFrameFits(RmacFrame(d, cmd, InitialRmac(c, d.session.keys, cmd.payload)), cfg.txCap);
  }

  /** The panel accepts the initial R-MAC. */
  lemma {:induction false} RmacIsAccepted(c: Cipher, a: Slot, d: Device, cmd: Frame, rmac: Block, raw: seq<byte>)
    requires a.phase == AwaitingRmacI && d.address == a.address && cmd.sequence == a.pendingSeq
    requires rmac == RmacOf(c, a) && Decode(raw) == Success(RmacFrame(d, cmd, rmac))
    ensures var r := Controllers.Receive(c, a, raw);
            r.wire == [] && r.slot.phase == Phase.Established && r.slot.session == Session(a.session.keys, rmac, rmac, true)
  {
    hide Decode, ServerCryptogram, InitialRmac;
  }

  // ---- The whole handshake ----

  /** A pair about to begin: the line is quiet, the slot idle or between
      exchanges, and the device able to answer and not holding this very
      challenge from before. */
  predicate Ready(c: Cipher, cfg: Config, p: Pair, useDefault: bool, rndA: Nonce) {
    && Accounting.InRange(p.slot) && !p.slot.waiting && p.line.Quiet?
    && p.slot.address == p.device.address && p.device.newAddress.None?
    && SameBaseKeys(p) && BaseKey(p.slot, useDefault).Some?
    && cfg.txCap >= LONGEST && cfg.cryptoReady && cfg.hasRandom
    && (p.slot.nextSeq % 4 == 0 || !p.device.haveLast || p.device.lastCmd == []
        || Decode(p.device.lastCmd) != Success(ChlngFrame(p.slot, useDefault, rndA)))
  }

  /** The first exchange: challenge out, cryptogram back, SCRYPT on the line. */
  lemma {:induction false} FirstExchange(c: Cipher, cfg: Config, p: Pair, useDefault: bool, rndA: Nonce, app: App)
    requires Ready(c, cfg, p, useDefault, rndA) && app.nonce.Some?
    ensures var p1 := Act(c, cfg, p, Start(useDefault, Success(rndA)));
            var p2 := Act(c, cfg, p1, CommandIn(app));
            var p3 := Act(c, cfg, p2, ReplyIn);
            var a, d := p3.slot, p3.device;
            && p3.line.ToDevice? && a.phase == AwaitingRmacI && Paired(p3)
            && a.session.keys == Derive(c, BaseKey(p.slot, useDefault).value, rndA)
            && a.address == d.address < 128 && d.newAddress.None? && d.gotChlng && ScConfigured(cfg, d)
            && a.pendingSeq < 4
            && Decode(Raw(p3.line.wire)).Success?
            && var cmd := Decode(Raw(p3.line.wire)).value;
            && HandshakeShape(cmd) && !cmd.reply && cmd.scbType == 0x13 && cmd.code == CMD_SCRYPT
            && cmd.address == a.address && cmd.sequence == a.pendingSeq
            && cmd.payload == ServerCryptogram(c, a.session.keys.enc, a.rndA, a.rndB)
            && !IsRetransmit(d, cmd, Raw(p3.line.wire))
  {
    hide Decode, Derive, ClientCryptogram, ServerCryptogram, Controllers.Receive, Devices.Receive, StartHandshake;
    ChallengeGoesOut(c, cfg, p, useDefault, rndA);
    var p1 := Act(c, cfg, p, Start(useDefault, Success(rndA)));
    var cmd := ChlngFrame(p.slot, useDefault, rndA);
    var raw := Raw(p1.line.wire);
    ChallengeIsAnswered(c, cfg, p1.device, cmd, raw, app);
    var p2 := Act(c, cfg, p1, CommandIn(app));
    var key := Controllers.HandshakeKey(p2.slot);
    CcryptIsAccepted(c, cfg, p2.slot, p1.device, cmd, key, app.nonce.value, Raw(p2.line.wire));
    SequenceOf(raw);
  }

  /** Challenge, answer, SCRYPT, answer: five steps in which nothing is lost. */
  function AfterHandshake(c: Cipher, cfg: Config, p: Pair, useDefault: bool, rndA: Nonce, app: App, app': App): Pair {
    var p3 := Act(c, cfg, Act(c, cfg, Act(c, cfg, p, Start(useDefault, Success(rndA))), CommandIn(app)), ReplyIn);
    Act(c, cfg, Act(c, cfg, p3, CommandIn(app')), ReplyIn)
  }

  /** The handshake completes: both sides of a ready pair come to hold the same
      open session, with the keys that the common base key gives for RND.A. */
  lemma {:induction false} HandshakeCompletes(c: Cipher, cfg: Config, p: Pair, useDefault: bool, rndA: Nonce, app: App, app': App)
    requires Ready(c, cfg, p, useDefault, rndA) && app.nonce.Some?
    ensures var q := AfterHandshake(c, cfg, p, useDefault, rndA, app, app');
            && q.slot.phase == Phase.Established && q.slot.session == q.device.session
            && q.slot.session.established && q.line.Quiet?
            && q.slot.session.keys == Derive(c, BaseKey(p.slot, useDefault).value, rndA)
  {
    hide Decode, Derive, ServerCryptogram, InitialRmac, Controllers.Receive, Devices.Receive, StartHandshake, SendCommand;
    FirstExchange(c, cfg, p, useDefault, rndA, app);
    var p3 := Act(c, cfg, Act(c, cfg, Act(c, cfg, p, Start(useDefault, Success(rndA))), CommandIn(app)), ReplyIn);
    var raw := Raw(p3.line.wire);
    var cmd := Decode(raw).value;
    ScryptIsAnswered(c, cfg, p3.device, cmd, raw, app');
    var p4 := Act(c, cfg, p3, CommandIn(app'));
    RmacIsAccepted(c, p4.slot, p3.device, cmd, RmacOf(c, p4.slot), Raw(p4.line.wire));
  }
}
