/** One command and its reply between a panel slot and a device: what is sent
    by one side is what the other side decodes, verifies and unwraps. */
module Exchanges {
  import opened Bytes
  import opened Codes
  import opened Frames
  import opened Ciphers
  import opened Wrapping
  import opened Devices
  import opened Controllers
  import Payloads
  import Macs

  /** The bytes of a transmission as the decoder sees them. */
  function Raw(wire: seq<byte>): seq<byte> {
    if wire == [] then [] else wire[MARK_LEN..]
  }

  predicate Secured(a: Slot) {
    a.phase == Phase.Established
  }

  /** How many bytes a reply with a payload of `n` bytes has on the wire. */
  function ReplySize(secured: bool, integrity: Integrity, n: nat): nat {
    MARK_LEN + HEADER_LEN + 1 + CheckLen(integrity) +
    if secured then SCB_MIN_LEN + Macs.TRUNCATED + (if n == 0 then 0 else Payloads.PaddedLen(n)) else n
  }

  predicate ReplyFits(cap: nat, secured: bool, integrity: Integrity, n: nat) {
    ReplySize(secured, integrity, n) <= cap && ReplySize(secured, integrity, n) <= MARK_LEN + MAX_LEN
  }

  /** Size is all that decides whether a reply is framed, in clear text... */
  lemma {:induction false} PlainReplyFits(cmd: Frame, code: byte, payload: seq<byte>, cap: nat)
    requires cmd.address < 128 && cmd.sequence < 4
    ensures Build(PlainReply(cmd, code, payload), cap).Success? <==> ReplyFits(cap, false, cmd.integrity, |payload|)
  {
    hide FrameBytes;
  }

  /** ...and under a session. */
  lemma {:induction false} SecureReplyFits(c: Cipher, s: Session, cmd: Frame, code: byte, payload: seq<byte>, cap: nat)
    requires cmd.address < 128 && cmd.sequence < 4 && s.established
    ensures Wrap(c, s, SecureReply(cmd, code, payload), cap).Success? <==> ReplyFits(cap, true, cmd.integrity, |payload|)
  {
    hide FrameBytes, Payloads.Encrypt, Macs.Mac, Prefix, Payloads.PaddedLen;
  }

  lemma {:induction false} FitsBelow(cap: nat, secured: bool, integrity: Integrity, n: nat, m: nat)
    requires n <= m && ReplyFits(cap, secured, integrity, m)
    ensures ReplyFits(cap, secured, integrity, n)
  {}

  /** The device decodes the command to the right header, and, in clear text, to
      the right command. */
  predicate Arrives(a: Slot, code: byte, payload: seq<byte>, raw: seq<byte>) {
    && Decode(raw).Success?
    && var cmd := Decode(raw).value;
    && !cmd.reply && cmd.address == a.address && cmd.sequence == a.nextSeq && cmd.code == code
    && cmd.integrity == a.integrity
    && raw != [] && |raw| > 4 && raw[4] % 4 == a.nextSeq
    && (if Secured(a) then cmd.hasScb && (cmd.scbType == 0x15 || cmd.scbType == 0x17)
        else !cmd.hasScb && cmd.payload == payload)
  }

  lemma {:induction false} CommandArrives(c: Cipher, a: Slot, code: byte, payload: seq<byte>)
    requires CommandWire(c, a, code, payload).Success? && a.nextSeq < 4
    ensures var w := CommandWire(c, a, code, payload).value;
            w.wire != [] && Arrives(a, code, payload, Raw(w.wire))
  {
    hide Decode, Build, Wrap, Final;
    var f := CommandFrame(a, code, payload);
    var w := CommandWire(c, a, code, payload).value;
    if Secured(a) {
      WrapIsBuild(c, a.session, f, Controllers.BUF_LEN);
      WrapTypes(c, a.session, f, Controllers.BUF_LEN);
      FinalFields(c, a.session, f, Controllers.BUF_LEN);
      SpelledHeader(Final(c, a.session, f, Controllers.BUF_LEN), Controllers.BUF_LEN);
    } else {
      SpelledHeader(f, Controllers.BUF_LEN);
    }
  }

  lemma {:induction false} FinalFields(c: Cipher, s: Session, f: Frame, cap: nat)
    requires Wrap(c, s, f, cap).Success?
    ensures var g := Final(c, s, f, cap);
            && g.address == f.address && g.reply == f.reply && g.sequence == f.sequence
            && g.integrity == f.integrity && g.hasScb && g.code == f.code
            && g.scbType == Coerce(f.scbType, f.payload == [])
  {
    hide Payloads.Encrypt, FrameBytes, Macs.Mac;
    StagedFields(c, s, f, cap);
  }

  lemma {:induction false} SpelledHeader(f: Frame, cap: nat)
    requires Build(f, cap).Success?
    ensures var raw := Build(f, cap).value[MARK_LEN..];
            && Build(f, cap).value != [] && |raw| > 4 && raw[4] % 4 == f.sequence
            && Decode(raw) == Success(Canonical(f))
  {
    hide Decode, FrameBytes, CtrlByte;
    DecodeBuild(f, cap);
    BuildSize(f, cap);
    Layout(f, BuildLength(f, cap).value);
    CtrlByteFields(f);
    assert Build(f, cap).value[MARK_LEN..] == FrameBytes(f, BuildLength(f, cap).value);
  }

  /** The size of the plaintext buffer decides only whether there is room. */
  lemma {:induction false} UnwrapRoom(c: Cipher, s: Session, f: Frame, raw: seq<byte>, room: nat, larger: nat)
    requires room <= larger && Unwrap(c, s, f, raw, larger).Success?
    ensures Unwrap(c, s, f, raw, room) ==
            if |f.payload| > room then Failure(BufferTooSmall) else Unwrap(c, s, f, raw, larger)
  {
    hide Macs.Mac, Payloads.Depad;
  }

  /** A wrapped frame never needs more plaintext room than a whole buffer. */
  lemma {:induction false} WrappedPayloadFits(c: Cipher, s: Session, f: Frame, cap: nat)
    requires Wrap(c, s, f, cap).Success?
    ensures Payloads.PaddedLen(|f.payload|) <= MAX_LEN
  {
    hide Build, FrameBytes, Payloads.Encrypt, Macs.Mac, Prefix;
    WrapIsBuild(c, s, f, cap);
    WrapTypes(c, s, f, cap);
    StagedFields(c, s, f, cap);
    BuildSize(Final(c, s, f, cap), cap);
    FinalPayload(c, s, f, cap);
  }

  /** A command whose payload is too long, once padded, for the plaintext buffer. */
  predicate Cramped(room: nat, payload: seq<byte>) {
    payload != [] && Payloads.PaddedLen(|payload|) > room
  }

  /** Chains in step: a device that last sent what the slot last received unwraps
      the slot's next command to its exact payload if it has room, and fails for
      want of room otherwise. */
  lemma {:induction false} CommandUnwraps(c: Cipher, a: Slot, code: byte, payload: seq<byte>, d: Session, room: nat)
    requires Inverts(c) && Secured(a) && CommandWire(c, a, code, payload).Success?
    requires d.established && d.keys == a.session.keys && d.lastOutbound == a.session.lastInbound
    ensures var w := CommandWire(c, a, code, payload).value;
            var raw := Raw(w.wire);
            && Decode(raw).Success?
            && Unwrap(c, d, Decode(raw).value, raw, room) ==
               if Cramped(room, payload) then Failure(BufferTooSmall) else Success(Unwrapped(payload, w.mac))
  {
    hide Decode, Build, Wrap, Unwrap, Final;
    var f := CommandFrame(a, code, payload);
    var w := CommandWire(c, a, code, payload).value;
    WrapNonEmpty(c, a.session, f, Controllers.BUF_LEN);
    var larger := room + Payloads.PaddedLen(|payload|);
    UnwrapWrap(c, a.session, f, Controllers.BUF_LEN, d, larger);
    UnwrapRoom(c, d, Decode(Raw(w.wire)).value, Raw(w.wire), room, larger);
    FinalPayload(c, a.session, f, Controllers.BUF_LEN);
  }

  lemma {:induction false} FinalPayload(c: Cipher, s: Session, f: Frame, cap: nat)
    requires Wrap(c, s, f, cap).Success?
    ensures |Final(c, s, f, cap).payload| == if f.payload == [] then 0 else Payloads.PaddedLen(|f.payload|)
  {
    hide Build, FrameBytes, Payloads.Encrypt, Macs.Mac, Prefix, Payloads.PaddedLen;
    WrapTypes(c, s, f, cap);
    StagedFields(c, s, f, cap);
  }

  lemma {:induction false} WrapNonEmpty(c: Cipher, s: Session, f: Frame, cap: nat)
    requires Wrap(c, s, f, cap).Success?
    ensures Wrap(c, s, f, cap).value.wire != []
  {
    hide FrameBytes, Macs.Mac, Staged;
  }

  /** The panel takes `wire` as the answer `code`, `payload` to the command it is
      waiting for; under a session its chain then continues from `mac`. */
  predicate Answers(c: Cipher, a: Slot, wire: seq<byte>, code: byte, payload: seq<byte>, mac: Block) {
    && wire != []
    && Decode(Raw(wire)).Success?
    && var f := Decode(Raw(wire)).value;
    && f.reply && f.address == a.address && f.sequence == a.nextSeq && f.code == code
    && (if Secured(a) then
          && f.hasScb && (f.scbType == 0x16 || f.scbType == 0x18)
          && Unwrap(c, a.session, f, Raw(wire), Controllers.BUF_LEN) == Success(Unwrapped(payload, mac))
        else !f.hasScb && f.payload == payload)
  }

  /** A reply wrapped by a device in step with the slot is such an answer. */
  lemma {:induction false} SecureReplyAnswers(c: Cipher, cfg: Config, a: Slot, d: Session, cmd: Frame, code: byte, payload: seq<byte>)
    requires Inverts(c) && Secured(a) && a.session.established
    requires a.session.keys == d.keys && a.session.lastOutbound == d.lastInbound
    requires cmd.address == a.address && cmd.sequence == a.nextSeq
    requires Wrap(c, d, SecureReply(cmd, code, payload), cfg.txCap).Success?
    ensures var w := Wrap(c, d, SecureReply(cmd, code, payload), cfg.txCap).value;
            Answers(c, a, w.wire, code, payload, w.mac)
  {
    hide Decode, Build, Wrap, Unwrap, Final;
    var f := SecureReply(cmd, code, payload);
    WrapNonEmpty(c, d, f, cfg.txCap);
    WrappedPayloadFits(c, d, f, cfg.txCap);
    UnwrapWrap(c, d, f, cfg.txCap, a.session, Controllers.BUF_LEN);
    FinalFields(c, d, f, cfg.txCap);
  }

  /** A reply built in clear text is such an answer for a slot without session. */
  lemma {:induction false} PlainReplyAnswers(c: Cipher, cfg: Config, a: Slot, cmd: Frame, code: byte, payload: seq<byte>, mac: Block)
    requires !Secured(a)
    requires cmd.address == a.address && cmd.sequence == a.nextSeq
    requires Build(PlainReply(cmd, code, payload), cfg.txCap).Success?
    ensures Answers(c, a, Build(PlainReply(cmd, code, payload), cfg.txCap).value, code, payload, mac)
  {
    hide Decode, Build;
    SpelledHeader(PlainReply(cmd, code, payload), cfg.txCap);
  }

  /** What the slot does with an answer. */
  lemma {:induction false} AnswerIsDelivered(c: Cipher, a: Slot, wire: seq<byte>, code: byte, payload: seq<byte>, mac: Block)
    requires Answers(c, a, wire, code, payload, mac)
    requires a.waiting && a.pendingSeq == a.nextSeq && a.nextSeq != 0
    requires Secured(a) || a.phase == Phase.Idle
    ensures var b := if Secured(a) then a.(session := a.session.(lastInbound := mac)) else a;
            Controllers.Receive(c, a, Raw(wire)) == Reacted(DeliverReply(b, code, payload), [])
  {
    hide Decode, Unwrap;
  }
}
