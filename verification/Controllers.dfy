/** One slot of the control panel (acu.c, acu_sc.c) as a function of its state,
    the application's calls and the received frames. */
module Controllers {
  import opened Bytes
  import opened Codes
  import opened Frames
  import opened Ciphers
  import opened Keys
  import opened Wrapping

  /** OSDP_ACU_BUF_LEN, the size of the transmit and plaintext buffers. */
  const BUF_LEN := MAX_LEN

  datatype Phase = Idle | AwaitingCcrypt | AwaitingRmacI | Established

  datatype ScEvent = SessionEstablished | SessionLost | HandshakeFailed

  /** What reply_cb is told. */
  datatype Answer = Answer(cmdCode: byte, code: byte, payload: seq<byte>)

  /** Counts of what has happened on a slot: commands put on the wire, reply
      timeouts, waits ended by the handshake or by a termination, resets of an
      established session and of an unfinished handshake by the application,
      and handshakes begun. */
  datatype Ledger = Ledger(sends: nat, timeouts: nat, consumed: nat, resets: nat, abandoned: nat, starts: nat)

  /** osdp_acu_pd_slot_t. `answers`, `events` and `ledger` record what the
      application was told and what was counted. */
  datatype Slot = Slot(
    address: byte,
    integrity: Integrity,
    phase: Phase,
    session: Session,
    rndA: Nonce,
    rndB: Nonce,
    selector: byte,
    scbk: Option<Block>,
    scbkD: Option<Block>,
    waiting: bool,
    nextSeq: byte,
    pendingSeq: byte,
    pendingCode: byte,
    online: bool,
    answers: seq<Answer>,
    events: seq<ScEvent>,
    ledger: Ledger)

  /** advance_sqn: 0, 1, 2, 3, 1, 2, 3, ... */
  function Advance(seq0: byte): byte {
    if seq0 >= 3 then 1 else seq0 + 1
  }

  // ---- Sending ----

  datatype Sent = Sent(slot: Slot, wire: seq<byte>)

  function MarkSent(a: Slot, seq0: byte, code: byte): Slot {
    a.(waiting := true, pendingSeq := seq0, pendingCode := code,
       ledger := a.ledger.(sends := a.ledger.sends + 1))
  }

  /** The template osdp_acu_send_command fills in. */
  function CommandFrame(a: Slot, code: byte, payload: seq<byte>): Frame {
    var secured := a.phase == Established;
    Frame(a.address, false, a.nextSeq % 4, a.integrity, secured,
          if secured then 2 else 0, if secured then 0x17 else 0, [], code, payload, [])
  }

  /** The bytes a command goes out as, and the session after it. */
  function CommandWire(c: Cipher, a: Slot, code: byte, payload: seq<byte>): Result<Wrapped> {
    var f := CommandFrame(a, code, payload);
    if a.phase == Established then Wrap(c, a.session, f, BUF_LEN)
    else
      var wire :- Build(f, BUF_LEN);
      Success(Wrapped(wire, a.session.lastOutbound))
  }

  /** osdp_acu_send_command, with a transport that takes the whole frame. */
  function SendCommand(c: Cipher, a: Slot, code: byte, payload: seq<byte>): Result<Sent> {
    if a.waiting then Failure(NotSupported)
    else
      var w :- CommandWire(c, a, code, payload);
      Success(Sent(MarkSent(a.(session := AfterWrap(a.session, w)), a.nextSeq % 4, code), w.wire))
  }

  /** The template of send_sc_cmd. */
  function HandshakeFrame(a: Slot, scbType: byte, code: byte, payload: seq<byte>): Frame {
    Frame(a.address, false, a.nextSeq % 4, a.integrity, true, 3, scbType, [a.selector], code, payload, [])
  }

  function SendHandshake(a: Slot, scbType: byte, code: byte, payload: seq<byte>): Result<Sent> {
    var wire :- Build(HandshakeFrame(a, scbType, code, payload), BUF_LEN);
    Success(Sent(MarkSent(a, a.nextSeq % 4, code), wire))
  }

  /** Whatever session or handshake there was is reset, without an event. */
  function Abandoned(a: Slot): Slot {
    a.(session := NoSession(), phase := Idle,
       ledger := a.ledger.(
         resets := a.ledger.resets + (if a.phase == Established then 1 else 0),
         abandoned := a.ledger.abandoned + (if Awaiting(a) then 1 else 0)))
  }

  function Prepared(a: Slot, useDefault: bool, rndA: Nonce): Slot {
    Abandoned(a).(rndA := rndA, selector := if useDefault then 0 else 1)
  }

  datatype Started = Started(slot: Slot, wire: Result<seq<byte>>)

  /** osdp_acu_start_sc_handshake. `nonce` is what the random source answers; it
      is asked after the reset, so its failure leaves the slot without its
      session. */
  function StartHandshake(a: Slot, useDefault: bool, nonce: Result<Nonce>): Started {
    if (if useDefault then a.scbkD else a.scbk).None? then Started(a, Failure(InvalidArg))
    else if a.waiting then Started(a, Failure(NotSupported))
    else
      match nonce
      case Failure(e) => Started(Abandoned(a), Failure(e))
      case Success(rndA) =>
        match SendHandshake(Prepared(a, useDefault, rndA), 0x11, CMD_CHLNG, rndA)
        case Failure(e) => Started(Prepared(a, useDefault, rndA), Failure(e))
        case Success(s) => Started(Begun(s.slot), Success(s.wire))
  }

  function Begun(a: Slot): Slot {
    a.(phase := AwaitingCcrypt, ledger := a.ledger.(starts := a.ledger.starts + 1))
  }

  predicate Awaiting(a: Slot) {
    a.phase == AwaitingCcrypt || a.phase == AwaitingRmacI
  }

  // ---- Ending a wait, a handshake or a session ----

  function StopWaiting(a: Slot): Slot {
    a.(waiting := false,
       ledger := a.ledger.(consumed := a.ledger.consumed + if a.waiting then 1 else 0))
  }

  /** reset_sc_handshake with clear_session. */
  function ResetHandshake(a: Slot): Slot {
    a.(phase := Idle, rndA := Zeros(RND_LEN), rndB := Zeros(RND_LEN), session := NoSession())
  }

  function FailHandshake(a: Slot): Slot {
    var b := ResetHandshake(StopWaiting(a));
    b.(events := b.events + [HandshakeFailed])
  }

  /** osdp_acu_internal_terminate_sc. */
  function Terminate(a: Slot): Slot {
    var b := ResetHandshake(StopWaiting(a).(nextSeq := 0));
    if a.phase == Established then b.(events := b.events + [SessionLost])
    else if Awaiting(a) then b.(events := b.events + [HandshakeFailed])
    else b
  }

  // ---- Receiving ----

  /** osdp_acu_internal_deliver_reply. */
  function DeliverReply(a: Slot, code: byte, payload: seq<byte>): Slot {
    a.(online := true, waiting := false, nextSeq := Advance(a.pendingSeq),
       answers := a.answers + [Answer(a.pendingCode, code, payload)])
  }

  /** process_reply, for replies without a security block. */
  function PlainReplyIn(a: Slot, f: Frame): Slot {
    if f.sequence == 0 && a.phase == Established then Terminate(a)
    else if a.phase == Established && f.code != REPLY_BUSY then Terminate(a)
    else if !a.waiting then a
    else if f.sequence != a.pendingSeq then a
    else DeliverReply(a, f.code, f.payload)
  }

  /** osdp_acu_internal_handle_sc_reply. */
  function SecureReplyIn(c: Cipher, a: Slot, f: Frame, raw: seq<byte>): Slot {
    if f.sequence == 0 then Terminate(a)
    else if !a.waiting || f.sequence != a.pendingSeq then a
    else
      match Unwrap(c, a.session, f, raw, BUF_LEN)
      case Failure(_) => Terminate(a)
      case Success(u) => DeliverReply(a.(session := AfterUnwrap(a.session, u)), f.code, u.plain)
  }

  function HandshakeKey(a: Slot): Block {
    match (if a.selector == 1 then a.scbk else a.scbkD)
    case Some(key) => key
    case None => Zeros(BLOCK)
  }

  /** A slot after a reply, and the command that goes out in turn, if any. */
  datatype Reacted = Reacted(slot: Slot, wire: seq<byte>)

  function Keyed(a: Slot, keys: SessionKeys, rndB: Nonce): Slot {
    StopWaiting(a).(rndB := rndB, session := a.session.(keys := keys), nextSeq := Advance(a.pendingSeq))
  }

  /** osdp_acu_internal_handle_ccrypt. */
  function CcryptIn(c: Cipher, a: Slot, f: Frame): Reacted {
    if f.sequence != a.pendingSeq then Reacted(a, [])
    else if f.code != REPLY_CCRYPT || f.scbData == [] || |f.payload| != 32 then Reacted(FailHandshake(a), [])
    else if f.scbData[0] != a.selector then Reacted(FailHandshake(a), [])
    else
      var rndB: Nonce := f.payload[8..16];
      var keys := Derive(c, HandshakeKey(a), a.rndA);
      if ClientCryptogram(c, keys.enc, a.rndA, rndB) != f.payload[16..] then Reacted(FailHandshake(a), [])
      else
        var b := Keyed(a, keys, rndB);
        match SendHandshake(b, 0x13, CMD_SCRYPT, ServerCryptogram(c, keys.enc, a.rndA, rndB))
        case Failure(_) => Reacted(FailHandshake(b), [])
        case Success(s) => Reacted(s.slot.(phase := AwaitingRmacI), s.wire)
  }

  /** The chain starts at the initial R-MAC on both sides. */
  function Opened(a: Slot, rmac: Block): Slot {
    var b := StopWaiting(a);
    b.(session := Session(a.session.keys, rmac, rmac, true), nextSeq := Advance(a.pendingSeq),
       online := true, phase := Established, events := b.events + [SessionEstablished])
  }

  /** osdp_acu_internal_handle_rmac_i. */
  function RmacIn(c: Cipher, a: Slot, f: Frame): Slot {
    if f.sequence != a.pendingSeq then a
    else if f.code != REPLY_RMAC_I || f.scbData == [] then FailHandshake(a)
    else if f.scbData[0] != 0x01 then FailHandshake(a)
    else if |f.payload| != BLOCK then FailHandshake(a)
    else
      var rmac := InitialRmac(c, a.session.keys, ServerCryptogram(c, a.session.keys.enc, a.rndA, a.rndB));
      if rmac != f.payload then FailHandshake(a) else Opened(a, rmac)
  }

  /** The routing of osdp_acu_tick, on one received candidate frame. */
  function Receive(c: Cipher, a: Slot, raw: seq<byte>): Reacted {
    match Decode(raw)
    case Failure(_) => Reacted(a, [])
    case Success(f) =>
      if !f.reply || f.address != a.address then Reacted(a, [])
      else if !f.hasScb then Reacted(PlainReplyIn(a, f), [])
      else if f.scbType == 0x12 && a.phase == AwaitingCcrypt then CcryptIn(c, a, f)
      else if f.scbType == 0x14 && a.phase == AwaitingRmacI then Reacted(RmacIn(c, a, f), [])
      else if (f.scbType == 0x16 || f.scbType == 0x18) && a.phase == Established then
        Reacted(SecureReplyIn(c, a, f, raw), [])
      else Reacted(a, [])
  }

  // ---- Time ----

  /** A reply timeout: the sequence number stays for the retry. */
  function ReplyTimeout(a: Slot): Slot {
    if a.waiting then
      a.(waiting := false, nextSeq := a.pendingSeq,
         ledger := a.ledger.(timeouts := a.ledger.timeouts + 1))
    else a
  }

  /** The end of the online window. */
  function OfflineTimeout(a: Slot): Slot {
    if a.online then
      var b := a.(online := false);
      if a.phase != Idle then Terminate(b) else b
    else a
  }
}
