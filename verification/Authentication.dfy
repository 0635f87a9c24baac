/** What opens a session on either side, on the bytes that arrive: the cryptograms
    of section D.4 of Annex D, and nothing else, over every run. */
module Authentication {
  import opened Bytes
  import opened Codes
  import opened Frames
  import opened Ciphers
  import opened Keys
  import opened Wrapping
  import opened EventQueues
  import opened Devices
  import opened Exchanges
  import Controllers
  import Policies
  import Accounting

  // ---- The device ----

  /** An SCS_13 osdp_SCRYPT after a challenge, whose payload encrypts RND.B and
      RND.A under S-ENC. */
  predicate ProvesPanel(c: Cipher, d: Device, cmd: Frame) {
    && cmd.hasScb && cmd.scbType == 0x13 && cmd.code == 0x77 && cmd.scbData != [] && d.gotChlng
    && cmd.payload == c.encrypt(d.session.keys.enc, d.rndB + d.rndA)
  }

  /** Bytes of a handshake reply with a payload of `n` bytes. */
  function HandshakeSize(integrity: Integrity, n: nat): nat {
    MARK_LEN + HEADER_LEN + 3 + 1 + n + CheckLen(integrity)
  }

  lemma {:induction false} HandshakeReplyFits(d: Device, cmd: Frame, data: byte, payload: seq<byte>, cap: nat)
    requires d.address < 128 && cmd.sequence < 4 && |payload| <= BLOCK
    ensures Build(HandshakeReply(d, cmd, 0x14, data, REPLY_RMAC_I, payload), cap).Success?
            <==> HandshakeSize(cmd.integrity, |payload|) <= cap
  {
    hide FrameBytes;
  }

  /** A SCRYPT that is met after a challenge opens the session exactly if it
      proves that the panel holds the key, and the answer has room; both chains
      then start at the initial R-MAC. */
  lemma {:induction false} ScryptOpensIff(c: Cipher, cfg: Config, d: Device, cmd: Frame)
    requires cmd.hasScb && cmd.scbType == 0x13 && !d.session.established
    requires d.address < 128 && cmd.sequence < 4
    ensures var h := HandleScrypt(c, cfg, d, cmd);
            var k := d.session.keys;
            && (h.device.session.established <==>
                  ProvesPanel(c, d, cmd) && HandshakeSize(cmd.integrity, 16) <= cfg.txCap)
            && (h.device.session.established ==>
                  && !h.device.gotChlng && h.device.session.keys == k
                  && h.device.session.lastInbound == c.encrypt(k.mac2, c.encrypt(k.mac1, cmd.payload))
                  && h.device.session.lastOutbound == h.device.session.lastInbound)
  {
    hide Build;
    if |cmd.payload| == BLOCK {
      HandshakeReplyFits(d, cmd, 0x01, InitialRmac(c, d.session.keys, cmd.payload), cfg.txCap);
    }
  }

  /** Any other sixteen bytes close the handshake, and are answered with status
      0xFF and no R-MAC. */
  lemma {:induction false} WrongCryptogramRefused(c: Cipher, cfg: Config, d: Device, cmd: Frame)
    requires cmd.code == 0x77 && cmd.scbData != [] && |cmd.payload| == BLOCK && d.gotChlng
    requires cmd.payload != c.encrypt(d.session.keys.enc, d.rndB + d.rndA)
    requires d.address < 128 && cmd.sequence < 4
    ensures var h := HandleScrypt(c, cfg, d, cmd);
            && !h.device.session.established && !h.device.gotChlng
            && (h.reply != [] <==> HandshakeSize(cmd.integrity, 0) <= cfg.txCap)
            && (h.reply != [] ==>
                  && Decode(Raw(h.reply)).Success?
                  && var f := Decode(Raw(h.reply)).value;
                  && f.reply && f.address == d.address && f.sequence == cmd.sequence
                  && f.hasScb && f.scbType == 0x14 && f.scbData == [0xFF] && f.code == 0x78 && f.payload == [])
  {
    hide Build, Decode;
    var f := HandshakeReply(d, cmd, 0x14, 0xFF, REPLY_RMAC_I, []);
    HandshakeReplyFits(d, cmd, 0xFF, [], cfg.txCap);
    if Build(f, cfg.txCap).Success? {
      SpelledHeader(f, cfg.txCap);
    }
  }

  /** The input is a frame that proves the panel to this device. */
  predicate Proof(c: Cipher, d: Device, input: Policies.Input) {
    input.Received? && Decode(input.raw).Success? && ProvesPanel(c, d, Decode(input.raw).value)
  }

  lemma {:induction false} HandleOpens(c: Cipher, cfg: Config, d: Device, cmd: Frame, raw: seq<byte>, app: App)
    requires !d.session.established && Handle(c, cfg, d, cmd, raw, app).device.session.established
    ensures ProvesPanel(c, d, cmd)
  {
    hide Build, Derive, ClientCryptogram, InitialRmac, Decide;
    Policies.DecideKeeps(d, cmd.code, cmd.payload, app);
  }

  /** No other input of any kind turns a closed session into an open one. */
  lemma {:induction false} OnlyProofOpens(c: Cipher, cfg: Config, d: Device, input: Policies.Input)
    requires !d.session.established && Policies.Apply(c, cfg, d, input).session.established
    ensures Proof(c, d, input)
  {
    hide Decode, Handle, AnswerBadCheck, Packed;
    if input.Received? && Decode(input.raw).Success? {
      var cmd := Decode(input.raw).value;
      if Handle(c, cfg, d, cmd, input.raw, input.app).device.session.established {
        HandleOpens(c, cfg, d, cmd, input.raw, input.app);
      }
    }
  }

  /** Over every run of a device: if it holds a session at the end, some step of
      the run brought the proof. */
  lemma {:induction false} SessionHasProof(c: Cipher, cfg: Config, d: Device, inputs: seq<Policies.Input>)
    requires !d.session.established && Policies.Run(c, cfg, d, inputs).session.established
    ensures exists i :: 0 <= i < |inputs| && Proof(c, Policies.Run(c, cfg, d, inputs[..i]), inputs[i])
    decreases |inputs|
  {
    hide Policies.Apply, Proof;
    var n := |inputs| - 1;
    var before := Policies.Run(c, cfg, d, inputs[..n]);
    if before.session.established {
      SessionHasProof(c, cfg, d, inputs[..n]);
      var i :| 0 <= i < n && Proof(c, Policies.Run(c, cfg, d, inputs[..n][..i]), inputs[..n][i]);
      assert inputs[..n][..i] == inputs[..i];
      assert Proof(c, Policies.Run(c, cfg, d, inputs[..i]), inputs[i]);
    } else {
      OnlyProofOpens(c, cfg, before, inputs[n]);
    }
  }

  /** A challenge is accepted exactly if it names a key that is set and there is
      a nonce and room to answer; the keys then come from that key and RND.A. */
  lemma {:induction false} ChallengeAcceptedIff(c: Cipher, cfg: Config, d: Device, cmd: Frame, app: App)
    requires !d.gotChlng && d.address < 128 && cmd.sequence < 4
    ensures var h := HandleChlng(c, cfg, d, cmd, app);
            && (h.device.gotChlng <==>
                  && cmd.code == 0x76 && |cmd.payload| == 8 && cmd.scbData != []
                  && ((cmd.scbData[0] == 1 && d.scbk.Some?) || (cmd.scbData[0] == 0 && d.scbkD.Some?))
                  && cfg.hasRandom && app.nonce.Some? && HandshakeSize(cmd.integrity, 32) <= cfg.txCap)
            && (h.device.gotChlng ==>
                  var key := if cmd.scbData[0] == 1 then d.scbk.value else d.scbkD.value;
                  && h.device.rndA == cmd.payload && h.device.rndB == app.nonce.value
                  && h.device.session.keys == Derive(c, key, cmd.payload) && !h.device.session.established)
  {
    hide FrameBytes, Derive;
  }

  /** The refusals of a challenge: another code, a nonce of the wrong length, and
      no usable key selector or no random source. */
  lemma {:induction false} ChallengeRefusals(c: Cipher, cfg: Config, d: Device, cmd: Frame, app: App)
    requires cmd.address < 128 && cmd.sequence < 4 && ReplyFits(cfg.txCap, false, cmd.integrity, 1)
    ensures var h := HandleChlng(c, cfg, d, cmd, app);
            && (cmd.code != 0x76 ==> h.device == d && Policies.IsNak(h.reply, cmd, 0x03))
            && (cmd.code == 0x76 && |cmd.payload| != 8 ==> h.device == d && Policies.IsNak(h.reply, cmd, 0x02))
            && (cmd.code == 0x76 && |cmd.payload| == 8
                && !(cmd.scbData != [] && HandshakeKey(d, cmd.scbData[0]).Some? && cfg.hasRandom) ==>
                  h.device == d && Policies.IsNak(h.reply, cmd, 0x05))
  {
    hide Build, Derive, ClientCryptogram, AnswerPlain, Policies.IsNak, ReplyFits;
    Policies.NakIsSent(cfg, d, cmd, NAK_UNKNOWN_CMD);
    Policies.NakIsSent(cfg, d, cmd, NAK_CMD_LENGTH);
    Policies.NakIsSent(cfg, d, cmd, NAK_UNSUPPORTED_SCB);
  }

  /** The refusals of a SCRYPT: another code, a cryptogram of the wrong length, and
      no challenge before it or no security block data. */
  lemma {:induction false} ScryptRefusals(c: Cipher, cfg: Config, d: Device, cmd: Frame)
    requires cmd.address < 128 && cmd.sequence < 4 && ReplyFits(cfg.txCap, false, cmd.integrity, 1)
    ensures var h := HandleScrypt(c, cfg, d, cmd);
            && (cmd.code != 0x77 ==> h.device == d && Policies.IsNak(h.reply, cmd, 0x03))
            && (cmd.code == 0x77 && |cmd.payload| != 16 ==> h.device == d && Policies.IsNak(h.reply, cmd, 0x02))
            && (cmd.code == 0x77 && |cmd.payload| == 16 && (!d.gotChlng || cmd.scbData == []) ==>
                  h.device == d && Policies.IsNak(h.reply, cmd, 0x05))
  {
    hide Build, ServerCryptogram, InitialRmac, AnswerPlain, Policies.IsNak, ReplyFits;
    Policies.NakIsSent(cfg, d, cmd, NAK_UNKNOWN_CMD);
    Policies.NakIsSent(cfg, d, cmd, NAK_CMD_LENGTH);
    Policies.NakIsSent(cfg, d, cmd, NAK_UNSUPPORTED_SCB);
  }

  // ---- The panel ----

  /** A CCRYPT that answers the slot's challenge: right sequence, shape and key
      selector, and a client cryptogram that encrypts RND.A and the RND.B sent
      with it under the slot's own S-ENC. */
  predicate ProvesDevice(c: Cipher, a: Controllers.Slot, f: Frame) {
    && f.sequence == a.pendingSeq && f.code == 0x76 && |f.payload| == 32
    && f.scbData != [] && f.scbData[0] == a.selector
    && f.payload[16..] == c.encrypt(Derive(c, Controllers.HandshakeKey(a), a.rndA).enc, a.rndA + f.payload[8..16])
  }

  /** An RMAC_I with status 1 and the R-MAC the slot computes itself. */
  predicate ConfirmsDevice(c: Cipher, a: Controllers.Slot, f: Frame) {
    var k := a.session.keys;
    && f.sequence == a.pendingSeq && f.code == 0x78 && f.scbData != [] && f.scbData[0] == 0x01
    && f.payload == c.encrypt(k.mac2, c.encrypt(k.mac1, c.encrypt(k.enc, a.rndB + a.rndA)))
  }

  /** The slot goes on to SCRYPT exactly on such a CCRYPT; one with another
      sequence number is ignored, and any other ends the handshake. */
  lemma {:induction false} CcryptAcceptedIff(c: Cipher, a: Controllers.Slot, f: Frame)
    requires Accounting.InRange(a) && a.phase == Controllers.AwaitingCcrypt
    ensures var b := Controllers.CcryptIn(c, a, f).slot;
            && (b.phase == Controllers.AwaitingRmacI <==> ProvesDevice(c, a, f))
            && (f.sequence != a.pendingSeq ==> b == a)
            && (f.sequence == a.pendingSeq && !ProvesDevice(c, a, f) ==>
                  b.phase == Controllers.Idle && b.session == NoSession() && !b.waiting
                  && b.events == a.events + [Controllers.HandshakeFailed])
            && (ProvesDevice(c, a, f) ==>
                  b.rndB == f.payload[8..16] && b.session.keys == Derive(c, Controllers.HandshakeKey(a), a.rndA))
  {
    hide Derive, FrameBytes;
  }

  /** The slot enters ESTABLISHED exactly on such an RMAC_I. */
  lemma {:induction false} RmacAcceptedIff(c: Cipher, a: Controllers.Slot, f: Frame)
    requires a.phase == Controllers.AwaitingRmacI
    ensures var b := Controllers.RmacIn(c, a, f);
            && (b.phase == Controllers.Phase.Established <==> ConfirmsDevice(c, a, f))
            && (f.sequence != a.pendingSeq ==> b == a)
            && (f.sequence == a.pendingSeq && !ConfirmsDevice(c, a, f) ==>
                  b.phase == Controllers.Idle && b.session == NoSession() && !b.waiting
                  && b.events == a.events + [Controllers.HandshakeFailed])
  {}

  /** The bytes are a reply that the predicate accepts of this slot. */
  predicate Answered(a: Controllers.Slot, input: Accounting.Input, scbType: byte) {
    input.Received? && Decode(input.raw).Success? &&
    var f := Decode(input.raw).value;
    f.reply && f.address == a.address && f.hasScb && f.scbType == scbType
  }

  predicate DeviceProof(c: Cipher, a: Controllers.Slot, input: Accounting.Input) {
    && a.phase == Controllers.AwaitingCcrypt && Answered(a, input, 0x12)
    && ProvesDevice(c, a, Decode(input.raw).value)
  }

  predicate Confirmation(c: Cipher, a: Controllers.Slot, input: Accounting.Input) {
    && a.phase == Controllers.AwaitingRmacI && Answered(a, input, 0x14)
    && ConfirmsDevice(c, a, Decode(input.raw).value)
  }

  lemma {:induction false} OtherRepliesStay(c: Cipher, a: Controllers.Slot, f: Frame, raw: seq<byte>)
    ensures Controllers.PlainReplyIn(a, f).phase in {a.phase, Controllers.Idle}
    ensures Controllers.SecureReplyIn(c, a, f, raw).phase in {a.phase, Controllers.Idle}
  {
    hide Unwrap;
  }

  /** Nothing else that can happen to a slot advances it. */
  lemma {:induction false} OnlyProofAdvances(c: Cipher, a: Controllers.Slot, input: Accounting.Input)
    requires Accounting.InRange(a)
    ensures var b := Accounting.Apply(c, a, input);
            && (b.phase == Controllers.AwaitingRmacI && a.phase != Controllers.AwaitingRmacI ==> DeviceProof(c, a, input))
            && (b.phase == Controllers.Phase.Established && a.phase != Controllers.Phase.Established ==>
                  Confirmation(c, a, input))
  {
    hide Decode, Controllers.CcryptIn, Controllers.RmacIn, Controllers.PlainReplyIn, Controllers.SecureReplyIn,
         Controllers.CommandWire, Build, ProvesDevice, ConfirmsDevice;
    if input.Received? && Decode(input.raw).Success? {
      var f := Decode(input.raw).value;
      OtherRepliesStay(c, a, f, input.raw);
      if a.phase == Controllers.AwaitingCcrypt {
        CcryptAcceptedIff(c, a, f);
        CcryptPhases(c, a, f);
      }
      if a.phase == Controllers.AwaitingRmacI {
        RmacAcceptedIff(c, a, f);
      }
    }
  }

  lemma {:induction false} CcryptPhases(c: Cipher, a: Controllers.Slot, f: Frame)
    requires a.phase == Controllers.AwaitingCcrypt
    ensures Controllers.CcryptIn(c, a, f).slot.phase != Controllers.Phase.Established
  {
    hide Build, Derive, ClientCryptogram, ServerCryptogram;
  }

  /** Over every run of a registered slot: a session at the end had the device's
      cryptogram at one step and its R-MAC at another. */
  lemma {:induction false} SlotSessionHasProof(c: Cipher, address: byte, integrity: Integrity, inputs: seq<Accounting.Input>)
    requires address < 128
    ensures var start := Accounting.Registered(address, integrity);
            var b := Accounting.Run(c, start, inputs);
            && (b.phase == Controllers.AwaitingRmacI || b.phase == Controllers.Phase.Established ==>
                  exists i :: 0 <= i < |inputs| && DeviceProof(c, Accounting.Run(c, start, inputs[..i]), inputs[i]))
            && (b.phase == Controllers.Phase.Established ==>
                  exists i :: 0 <= i < |inputs| && Confirmation(c, Accounting.Run(c, start, inputs[..i]), inputs[i]))
    decreases |inputs|
  {
    hide Accounting.Apply, DeviceProof, Confirmation;
    if inputs != [] {
      var start := Accounting.Registered(address, integrity);
      var n := |inputs| - 1;
      var a := Accounting.Run(c, start, inputs[..n]);
      Accounting.RunInRange(c, address, integrity, inputs[..n]);
      SlotSessionHasProof(c, address, integrity, inputs[..n]);
      OnlyProofAdvances(c, a, inputs[n]);
      ConfirmedAfterProof(c, a, inputs[n]);
      if i :| 0 <= i < n && DeviceProof(c, Accounting.Run(c, start, inputs[..n][..i]), inputs[..n][i]) {
        assert inputs[..n][..i] == inputs[..i];
        assert DeviceProof(c, Accounting.Run(c, start, inputs[..i]), inputs[i]);
      }
      if i :| 0 <= i < n && Confirmation(c, Accounting.Run(c, start, inputs[..n][..i]), inputs[..n][i]) {
        assert inputs[..n][..i] == inputs[..i];
        assert Confirmation(c, Accounting.Run(c, start, inputs[..i]), inputs[i]);
      }
    }
  }

  lemma {:induction false} ConfirmedAfterProof(c: Cipher, a: Controllers.Slot, input: Accounting.Input)
    ensures Confirmation(c, a, input) ==> a.phase == Controllers.AwaitingRmacI
  {
    hide Decode;
  }
}
