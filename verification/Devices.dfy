/** The peripheral device (pd.c, pd_sc.c, pd_dispatch.c) as a function of its
    state, the received frame and what its application answers. */
module Devices {
  import opened Bytes
  import opened Codes
  import opened Frames
  import opened Ciphers
  import opened Keys
  import opened Wrapping
  import opened EventQueues

  /** The bound regions and the set-up that does not change in a run; `hasRandom`
      says that a random source is bound. */
  datatype Config = Config(
    txCap: nat,
    plainCap: nat,
    replyCap: nat,
    commandCap: nat,
    queueCap: nat,
    cuid: Nonce,
    cryptoReady: bool,
    hasRandom: bool)

  /** osdp_pd_dispatch_outcome_t with the reply it carries. */
  datatype Verdict = Reply(code: byte, payload: seq<byte>) | Drop | Busy

  /** What the application and the random source contribute to one command. */
  datatype App = App(
    verdict: Verdict,
    nonce: Option<Nonce>,
    comAddress: byte,
    comBaud: (byte, byte, byte, byte))

  datatype Channel = Plain | Secure

  /** One command that reached the dispatch, and its outcome. */
  datatype Entry = Entry(channel: Channel, code: byte, payload: seq<byte>, result: Verdict, fromQueue: bool)

  /** osdp_pd_t. `accepted` and `log` record what has happened so far. */
  datatype Device = Device(
    address: byte,
    session: Session,
    gotChlng: bool,
    rndA: Nonce,
    rndB: Nonce,
    scbk: Option<Block>,
    scbkD: Option<Block>,
    haveLast: bool,
    lastCmd: seq<byte>,
    lastReply: seq<byte>,
    newAddress: Option<byte>,
    queue: seq<Event>,
    accepted: seq<Event>,
    log: seq<Entry>)

  // ---- Dispatch ----

  /** The key in a usable KEYSET record. */
  function KeysetKey(payload: seq<byte>): Option<Block> {
    if |payload| == 2 + BLOCK && payload[0] == 0x01 && payload[1] == BLOCK
    then Some(payload[2..])
    else None
  }

  /** A COMSET that will be applied, be it to the address the device has. */
  predicate StagesComset(code: byte, payload: seq<byte>) {
    code == CMD_COMSET && |payload| == 5
  }

  datatype Decision = Decision(device: Device, result: Verdict, fromQueue: bool)

  function Nak(code: byte): Verdict {
    Reply(REPLY_NAK, [code])
  }

  /** osdp_pd_internal_dispatch. The library-handled commands other than COMSET
      answer through `app.verdict`, like the application. */
  function Decide(d: Device, code: byte, payload: seq<byte>, app: App): Decision {
    if code == CMD_COMSET then
      if |payload| != 5 then Decision(d, Nak(NAK_CMD_LENGTH), false)
      else
        var addr := if app.comAddress > MAX_ADDR then d.address else app.comAddress;
        var b := app.comBaud;
        Decision(d.(newAddress := Some(addr)), Reply(REPLY_COM, [addr, b.0, b.1, b.2, b.3]), false)
    else if code == CMD_POLL then
      var t := Dequeue(d.queue);
      var d' := d.(queue := t.rest);
      match t.event
      case Some(e) => Decision(d', Reply(e.code, e.payload), true)
      case None => Decision(d', app.verdict, false)
    else if code == CMD_KEYSET && app.verdict.Reply? then
      match KeysetKey(payload)
      case Some(key) => Decision(d.(scbk := Some(key)), app.verdict, false)
      case None => Decision(d, Nak(NAK_RECORD_INVALID), false)
    else Decision(d, app.verdict, false)
  }

  function Dispatch(d: Device, channel: Channel, code: byte, payload: seq<byte>, app: App): Decision {
    var x := Decide(d, code, payload, app);
    x.(device := x.device.(log := x.device.log + [Entry(channel, code, payload, x.result, x.fromQueue)]))
  }

  // ---- Framing of replies ----

  /** The device after a command, the reply bytes (none if empty), and whether
      the command may be remembered. */
  datatype Handled = Handled(device: Device, reply: seq<byte>, cacheable: bool)

  function Framed(d: Device, wire: Result<seq<byte>>): Handled {
    Handled(d, if wire.Success? then wire.value else [], true)
  }

  /** build_reply: mirrors address, sequence and integrity mode. */
  function PlainReply(cmd: Frame, code: byte, payload: seq<byte>): Frame {
    Frame(cmd.address, true, cmd.sequence, cmd.integrity, false, 0, 0, [], code, payload, [])
  }

  function AnswerPlain(cfg: Config, d: Device, cmd: Frame, v: Verdict): Handled
    requires v.Reply?
  {
    Framed(d, Build(PlainReply(cmd, v.code, v.payload), cfg.txCap))
  }

  /** osdp_pd_internal_build_busy: plaintext, sequence zero, never cached. */
  function AnswerBusy(cfg: Config, d: Device, cmd: Frame): Handled {
    Framed(d, Build(PlainReply(cmd, REPLY_BUSY, []).(sequence := 0), cfg.txCap)).(cacheable := false)
  }

  function FramePlain(cfg: Config, d: Device, cmd: Frame, v: Verdict): Handled {
    match v
    case Reply(_, _) => AnswerPlain(cfg, d, cmd, v)
    case Drop => Handled(d, [], true)
    case Busy => AnswerBusy(cfg, d, cmd)
  }

  // ---- Clear-text commands ----

  predicate AllowedInClear(code: byte) {
    code == CMD_ID || code == CMD_CAP || code == CMD_COMSET
  }

  function DropSession(d: Device): Device {
    d.(session := NoSession(), gotChlng := false)
  }

  /** The clear-text half of handle_command_into_tx. */
  function HandlePlain(cfg: Config, d: Device, cmd: Frame, app: App): Handled {
    if d.session.established && cmd.sequence != 0 then
      AnswerPlain(cfg, DropSession(d), cmd, Nak(NAK_ENCRYPTION_REQUIRED))
    else
      var d1 := if d.session.established then DropSession(d) else d;
      if d1.scbk.Some? && !AllowedInClear(cmd.code) then
        AnswerPlain(cfg, d1, cmd, Nak(NAK_ENCRYPTION_REQUIRED))
      else
        var x := Dispatch(d1, Plain, cmd.code, cmd.payload, app);
        FramePlain(cfg, x.device, cmd, x.result)
  }

  // ---- Secure Channel commands ----

  predicate ScConfigured(cfg: Config, d: Device) {
    cfg.cryptoReady && (d.scbk.Some? || d.scbkD.Some?)
  }

  function HandshakeKey(d: Device, selector: byte): Option<Block> {
    if selector == 1 then d.scbk else if selector == 0 then d.scbkD else None
  }

  /** build_handshake_reply: one byte of security block data, no MAC. */
  function HandshakeReply(d: Device, cmd: Frame, scbType: byte, data: byte, code: byte, payload: seq<byte>): Frame {
    Frame(d.address, true, cmd.sequence, cmd.integrity, true, 3, scbType, [data], code, payload, [])
  }

  function Challenged(d: Device, keys: SessionKeys, rndA: Nonce, rndB: Nonce): Device {
    d.(rndA := rndA, rndB := rndB, session := d.session.(keys := keys))
  }

  /** handle_chlng. */
  function HandleChlng(c: Cipher, cfg: Config, d: Device, cmd: Frame, app: App): Handled {
    if cmd.code != CMD_CHLNG then AnswerPlain(cfg, d, cmd, Nak(NAK_UNKNOWN_CMD))
    else if |cmd.payload| != RND_LEN then AnswerPlain(cfg, d, cmd, Nak(NAK_CMD_LENGTH))
    else if cmd.scbData == [] then AnswerPlain(cfg, d, cmd, Nak(NAK_UNSUPPORTED_SCB))
    else
      var selector := cmd.scbData[0];
      match HandshakeKey(d, selector)
      case None => AnswerPlain(cfg, d, cmd, Nak(NAK_UNSUPPORTED_SCB))
      case Some(key) =>
        if !cfg.hasRandom then AnswerPlain(cfg, d, cmd, Nak(NAK_UNSUPPORTED_SCB))
        else
          match app.nonce
          case None => Handled(d, [], true)
          case Some(rndB) =>
            var rndA: Nonce := cmd.payload;
            var keys := Derive(c, key, rndA);
            var d1 := Challenged(d, keys, rndA, rndB);
            var payload := cfg.cuid + rndB + ClientCryptogram(c, keys.enc, rndA, rndB);
            var wire := Build(HandshakeReply(d, cmd, 0x12, selector, REPLY_CCRYPT, payload), cfg.txCap);
            if wire.Failure? then Handled(d1, [], true)
            else Handled(d1.(gotChlng := true, session := d1.session.(established := false)), wire.value, true)
  }

  /** handle_scrypt. */
  function HandleScrypt(c: Cipher, cfg: Config, d: Device, cmd: Frame): Handled {
    if cmd.code != CMD_SCRYPT then AnswerPlain(cfg, d, cmd, Nak(NAK_UNKNOWN_CMD))
    else if |cmd.payload| != BLOCK then AnswerPlain(cfg, d, cmd, Nak(NAK_CMD_LENGTH))
    else if !d.gotChlng then AnswerPlain(cfg, d, cmd, Nak(NAK_UNSUPPORTED_SCB))
    else if cmd.scbData == [] then AnswerPlain(cfg, d, cmd, Nak(NAK_UNSUPPORTED_SCB))
    else if cmd.payload != ServerCryptogram(c, d.session.keys.enc, d.rndA, d.rndB) then
      Framed(d.(gotChlng := false, session := d.session.(established := false)),
             Build(HandshakeReply(d, cmd, 0x14, 0xFF, REPLY_RMAC_I, []), cfg.txCap))
    else
      var rmac := InitialRmac(c, d.session.keys, cmd.payload);
      var wire := Build(HandshakeReply(d, cmd, 0x14, 0x01, REPLY_RMAC_I, rmac), cfg.txCap);
      if wire.Failure? then Handled(d, [], true)
      else
        Handled(d.(gotChlng := false, session := Session(d.session.keys, rmac, rmac, true)), wire.value, true)
  }

  /** The reply template of handle_operational; wrapping settles the type. */
  function SecureReply(cmd: Frame, code: byte, payload: seq<byte>): Frame {
    Frame(cmd.address, true, cmd.sequence, cmd.integrity, true, 2, 0x18, [], code, payload, [])
  }

  function FrameSecure(c: Cipher, cfg: Config, d: Device, cmd: Frame, v: Verdict): Handled {
    match v
    case Drop => Handled(d, [], true)
    case Busy => AnswerBusy(cfg, d, cmd)
    case Reply(code, payload) =>
      match Wrap(c, d.session, SecureReply(cmd, code, payload), cfg.txCap)
      case Failure(_) => Handled(d, [], true)
      case Success(w) => Handled(d.(session := AfterWrap(d.session, w)), w.wire, true)
  }

  /** handle_operational. */
  function HandleOperational(c: Cipher, cfg: Config, d: Device, cmd: Frame, raw: seq<byte>, app: App): Handled {
    if !d.session.established then AnswerPlain(cfg, d, cmd, Nak(NAK_UNSUPPORTED_SCB))
    else
      match Unwrap(c, d.session, cmd, raw, cfg.plainCap)
      case Failure(_) => Handled(d, [], true)
      case Success(u) =>
        var x := Dispatch(d.(session := AfterUnwrap(d.session, u)), Secure, cmd.code, u.plain, app);
        FrameSecure(c, cfg, x.device, cmd, x.result)
  }

  /** handle_command_into_tx. */
  function Handle(c: Cipher, cfg: Config, d: Device, cmd: Frame, raw: seq<byte>, app: App): Handled {
    if !cmd.hasScb then HandlePlain(cfg, d, cmd, app)
    else if !ScConfigured(cfg, d) then AnswerPlain(cfg, d, cmd, Nak(NAK_UNSUPPORTED_SCB))
    else if cmd.scbType == 0x11 then HandleChlng(c, cfg, d, cmd, app)
    else if cmd.scbType == 0x13 then HandleScrypt(c, cfg, d, cmd)
    else if cmd.scbType == 0x15 || cmd.scbType == 0x17 then HandleOperational(c, cfg, d, cmd, raw, app)
    else AnswerPlain(cfg, d, cmd, Nak(NAK_UNSUPPORTED_SCB))
  }

  // ---- The retransmit cache ----

  /** cache_reply. */
  function Remember(cfg: Config, d: Device, raw: seq<byte>, reply: seq<byte>): Device {
    d.(haveLast := true,
       lastCmd := if |raw| <= cfg.commandCap then raw else [],
       lastReply := if |reply| <= cfg.replyCap then reply else [])
  }

  /** is_retransmit. */
  predicate IsRetransmit(d: Device, cmd: Frame, raw: seq<byte>) {
    cmd.sequence != 0 && d.haveLast && d.lastCmd != [] && d.lastCmd == raw
  }

  /** osdp_pd_internal_apply_comset, when a change is staged. */
  function ApplyComset(d: Device): Device {
    match d.newAddress
    case None => d
    case Some(a) => d.(address := a, newAddress := None, haveLast := false)
  }

  datatype Step = Step(device: Device, reply: seq<byte>)

  /** process_frame. */
  function Process(c: Cipher, cfg: Config, d: Device, cmd: Frame, raw: seq<byte>, app: App): Step {
    if IsRetransmit(d, cmd, raw) then Step(d, d.lastReply)
    else
      var h := Handle(c, cfg, d, cmd, raw, app);
      var d1 := if h.cacheable then Remember(cfg, h.device, raw, h.reply) else h.device.(haveLast := false);
      Step(ApplyComset(d1), h.reply)
  }

  /** A command for this device whose check bytes are wrong is answered in clear
      text, whatever session there is, and changes nothing. */
  function AnswerBadCheck(cfg: Config, d: Device, raw: seq<byte>): seq<byte>
    requires FailsCheck(raw)
  {
    var cmd := Identity(raw);
    if cmd.reply || cmd.address != d.address then []
    else AnswerPlain(cfg, d, cmd, Nak(NAK_BAD_CHECK)).reply
  }

  /** The frame filter of osdp_pd_tick, on one received candidate frame. */
  function Receive(c: Cipher, cfg: Config, d: Device, raw: seq<byte>, app: App): Step {
    match Decode(raw)
    case Failure(_) => Step(d, if FailsCheck(raw) then AnswerBadCheck(cfg, d, raw) else [])
    case Success(cmd) =>
      if cmd.reply || (cmd.address != d.address && cmd.address != BROADCAST) then Step(d, [])
      else Process(c, cfg, d, cmd, raw, app)
  }

  /** The transition of check_offline_timeout. */
  function GoOffline(d: Device): Device {
    d.(haveLast := false, queue := [])
  }

  /** osdp_pd_enqueue_event. */
  function Offer(cfg: Config, d: Device, e: Event): Device {
    match Enqueue(d.queue, cfg.queueCap, e)
    case Failure(_) => d
    case Success(q) => d.(queue := q, accepted := d.accepted + [e])
  }
}
