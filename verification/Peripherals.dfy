/** osdp_pd_t as the code has it: bound buffers, caches and session fields
    updated in place by each command. Every method is proved equal to its step
    in Devices. */
module Peripherals {
  import opened Bytes
  import opened Codes
  import opened Frames
  import opened Ciphers
  import opened Keys
  import opened Wrapping
  import opened EventQueues
  import opened Devices

  class Peripheral {
    const cipher: Cipher
    const cuid: Nonce
    const cryptoReady: bool
    const hasRandom: bool
    const session: SessionState
    const events: EventQueue
    const tx: array<byte>
    const rxPlain: array<byte>
    const rplCache: array<byte>
    const cmdCache: array<byte>

    var address: byte
    var gotChlng: bool
    var rndA: Nonce
    var rndB: Nonce
    var scbk: Option<Block>
    var scbkD: Option<Block>
    var haveLast: bool
    var lastCmdLen: nat
    var lastReplyLen: nat
    var newAddress: Option<byte>
    var replyCacheable: bool
    ghost var accepted: seq<Event>
    ghost var log: seq<Entry>

    function Limits(): Config {
      Config(tx.Length, rxPlain.Length, rplCache.Length, cmdCache.Length, events.buf.Length, cuid, cryptoReady, hasRandom)
    }

    /** The bound regions do not overlap. */
    ghost predicate Separate() {
      && tx != rxPlain && tx != rplCache && tx != cmdCache && tx != events.buf && tx != events.scratch
      && rxPlain != rplCache && rxPlain != cmdCache && rxPlain != events.buf && rxPlain != events.scratch
      && rplCache != cmdCache && rplCache != events.buf && rplCache != events.scratch
      && cmdCache != events.buf && cmdCache != events.scratch
    }

    ghost predicate Valid()
      reads this, events, events.buf
    {
      Separate() && events.Valid() && lastCmdLen <= cmdCache.Length && lastReplyLen <= rplCache.Length
    }

    ghost function View(): Device
      requires lastCmdLen <= cmdCache.Length && lastReplyLen <= rplCache.Length
      reads this, session, events, cmdCache, rplCache
    {
      Device(address, session.View(), gotChlng, rndA, rndB, scbk, scbkD, haveLast,
             cmdCache[..lastCmdLen], rplCache[..lastReplyLen], newAddress, events.items, accepted, log)
    }

    /** osdp_pd_init, with the regions of osdp_pd_set_buffers. */
    constructor (c: Cipher, limits: Config, addr: byte)
      ensures Valid() && Limits() == limits && cipher == c
      ensures fresh(session) && fresh(events) && fresh(events.buf) && fresh(events.scratch)
      ensures fresh(tx) && fresh(rxPlain) && fresh(rplCache) && fresh(cmdCache)
      ensures View() == Device(addr % 128, NoSession(), false, Zeros(RND_LEN), Zeros(RND_LEN), None, None,
                               false, [], [], None, [], [], [])
    {
      cipher, cuid, cryptoReady, hasRandom := c, limits.cuid, limits.cryptoReady, limits.hasRandom;
      session := new SessionState();
      events := new EventQueue(limits.queueCap);
      tx := new byte[limits.txCap](_ => 0);
      rxPlain := new byte[limits.plainCap](_ => 0);
      rplCache := new byte[limits.replyCap](_ => 0);
      cmdCache := new byte[limits.commandCap](_ => 0);
      address := addr % 128;
      gotChlng, haveLast, replyCacheable := false, false, false;
      rndA, rndB := Zeros(RND_LEN), Zeros(RND_LEN);
      scbk, scbkD, newAddress := None, None, None;
      lastCmdLen, lastReplyLen := 0, 0;
      accepted, log := [], [];
    }

    // ---- Framing ----

    /** osdp_frame_build into the transmit buffer; no bytes if it refuses. */
    method BuildTx(f: Frame) returns (n: nat)
      modifies tx
      ensures n <= tx.Length
      ensures tx[..n] == match Build(f, tx.Length) case Success(wire) => wire case Failure(_) => []
    {
      hide Build;
      var r := BuildInto(f, false, tx);
      n := if r.Success? then r.value else 0;
    }

    method NakTx(cmd: Frame, code: byte) returns (n: nat)
      modifies tx
      ensures n <= tx.Length
      ensures forall d: Device :: AnswerPlain(Limits(), d, cmd, Nak(code)) == Handled(d, tx[..n], true)
    {
      hide Build;
      n := BuildTx(PlainReply(cmd, REPLY_NAK, [code]));
    }

    /** osdp_pd_internal_build_busy. */
    method BusyTx(cmd: Frame) returns (n: nat)
      modifies this`replyCacheable, tx
      ensures n <= tx.Length && !replyCacheable
      ensures forall d: Device :: AnswerBusy(Limits(), d, cmd) == Handled(d, tx[..n], false)
    {
      hide Build;
      replyCacheable := false;
      n := BuildTx(PlainReply(cmd, REPLY_BUSY, []).(sequence := 0));
    }

    // ---- Dispatch ----

    /** osdp_pd_internal_dispatch. */
    method DispatchCommand(channel: Channel, code: byte, payload: seq<byte>, app: App)
      returns (result: Verdict)
      requires Valid()
      modifies this`newAddress, this`scbk, this`log, events, events.buf, events.scratch
      ensures Valid()
      ensures var x := Dispatch(old(View()), channel, code, payload, app);
              View() == x.device && result == x.result
    {
      var fromQueue := false;
      result := app.verdict;
      if code == CMD_COMSET {
        if |payload| != 5 {
          result := Nak(NAK_CMD_LENGTH);
        } else {
          var addr := if app.comAddress > MAX_ADDR then address else app.comAddress;
          newAddress := Some(addr);
          result := Reply(REPLY_COM, [addr, app.comBaud.0, app.comBaud.1, app.comBaud.2, app.comBaud.3]);
        }
      } else if code == CMD_POLL {
        var e := events.Take();
        if e.Some? {
          result := Reply(e.value.code, e.value.payload);
          fromQueue := true;
        }
      } else if code == CMD_KEYSET && app.verdict.Reply? {
        var key := KeysetKey(payload);
        if key.Some? {
          scbk := key;
        } else {
          result := Nak(NAK_RECORD_INVALID);
        }
      }
      log := log + [Entry(channel, code, payload, result, fromQueue)];
    }

    // ---- Clear-text commands ----

    /** osdp_sc_session_init on the live session, and the handshake flag. */
    method EndSession()
      modifies this`gotChlng, session
      ensures session.View() == NoSession() && !gotChlng
    {
      var zero: Block := Zeros(BLOCK);
      session.keys := SessionKeys(zero, zero, zero);
      session.lastOutbound, session.lastInbound := zero, zero;
      session.established := false;
      gotChlng := false;
    }

    method FramePlainTx(cmd: Frame, result: Verdict) returns (n: nat)
      requires Valid() && replyCacheable
      modifies this`replyCacheable, tx
      ensures Valid() && n <= tx.Length
      ensures FramePlain(Limits(), old(View()), cmd, result) == Handled(View(), tx[..n], replyCacheable)
    {
      hide EventQueue.Valid, Build;
      match result {
        case Busy => n := BusyTx(cmd);
        case Drop => n := 0;
        case Reply(code, payload) => n := BuildTx(PlainReply(cmd, code, payload));
      }
    }

    /** The clear-text half of handle_command_into_tx. */
    method HandlePlainTx(cmd: Frame, app: App) returns (n: nat)
      requires Valid() && replyCacheable
      modifies this`gotChlng, this`newAddress, this`scbk, this`log, this`replyCacheable, session, events, events.buf, events.scratch, tx
      ensures Valid() && n <= tx.Length
      ensures HandlePlain(Limits(), old(View()), cmd, app) == Handled(View(), tx[..n], replyCacheable)
    {
      hide EventQueue.Valid, Build, Dispatch, FramePlain;
      if session.established {
        EndSession();
        if cmd.sequence != 0 {
          n := NakTx(cmd, NAK_ENCRYPTION_REQUIRED);
          return;
        }
      }
      if scbk.Some? && !AllowedInClear(cmd.code) {
        n := NakTx(cmd, NAK_ENCRYPTION_REQUIRED);
        return;
      }
      var result := DispatchCommand(Plain, cmd.code, cmd.payload, app);
      n := FramePlainTx(cmd, result);
    }

    // ---- Secure Channel commands ----

    /** select_handshake_key. */
    method SelectKey(selector: byte) returns (key: Option<Block>)
      requires lastCmdLen <= cmdCache.Length && lastReplyLen <= rplCache.Length
      ensures key == HandshakeKey(View(), selector)
    {
      key := if selector == 1 && scbk.Some? then scbk else if selector == 0 && scbkD.Some? then scbkD else None;
    }

    /** build_handshake_reply. */
    method HandshakeTx(cmd: Frame, scbType: byte, data: byte, code: byte, payload: seq<byte>) returns (r: Result<nat>)
      requires lastCmdLen <= cmdCache.Length && lastReplyLen <= rplCache.Length
      modifies tx
      ensures match Build(HandshakeReply(old(View()), cmd, scbType, data, code, payload), tx.Length)
              case Success(wire) => r == Success(|wire|) && |wire| <= tx.Length && tx[..|wire|] == wire
              case Failure(e) => r == Failure(e)
    {
      hide Build;
      r := BuildInto(Frame(address, true, cmd.sequence, cmd.integrity, true, 3, scbType, [data], code, payload, []), false, tx);
    }

    method TakeChallenge(keys: SessionKeys, theirs: Nonce, ours: Nonce)
      requires Valid()
      modifies this`rndA, this`rndB, session
      ensures Valid() && View() == Challenged(old(View()), keys, theirs, ours)
    {
      hide EventQueue.Valid;
      rndB := ours;
      rndA := theirs;
      session.keys := keys;
    }

    /** The second half of handle_chlng: keys from RND.A, and the answer. */
    method AnswerChlng(cmd: Frame, key: Block, nonce: Nonce) returns (n: nat)
      requires Valid() && |cmd.payload| == RND_LEN && cmd.scbData != []
      modifies this`rndA, this`rndB, this`gotChlng, session, tx
      ensures Valid() && n <= tx.Length
      ensures var d := old(View());
              var keys := Derive(cipher, key, cmd.payload);
              var payload := cuid + nonce + ClientCryptogram(cipher, keys.enc, cmd.payload, nonce);
              var d1 := Challenged(d, keys, cmd.payload, nonce);
              match Build(HandshakeReply(d, cmd, 0x12, cmd.scbData[0], REPLY_CCRYPT, payload), tx.Length)
              case Failure(_) => View() == d1 && n == 0
              case Success(wire) =>
                View() == d1.(gotChlng := true, session := d1.session.(established := false)) && tx[..n] == wire
    {
      hide EventQueue.Valid, Build, Derive, ClientCryptogram;
      var keys := Derive(cipher, key, cmd.payload);
      TakeChallenge(keys, cmd.payload, nonce);
      var r := HandshakeTx(cmd, 0x12, cmd.scbData[0], REPLY_CCRYPT,
                           cuid + nonce + ClientCryptogram(cipher, keys.enc, cmd.payload, nonce));
      if r.Failure? {
        return 0;
      }
      n := r.value;
      gotChlng := true;
      session.established := false;
    }

    /** handle_chlng. */
    method HandleChlngTx(cmd: Frame, app: App) returns (n: nat)
      requires Valid() && replyCacheable
      modifies this`rndA, this`rndB, this`gotChlng, session, tx
      ensures Valid() && n <= tx.Length
      ensures HandleChlng(cipher, Limits(), old(View()), cmd, app) == Handled(View(), tx[..n], replyCacheable)
    {
      hide EventQueue.Valid, Build, Derive, ClientCryptogram;
      if cmd.code != CMD_CHLNG {
        n := NakTx(cmd, NAK_UNKNOWN_CMD);
        return;
      }
      if |cmd.payload| != RND_LEN {
        n := NakTx(cmd, NAK_CMD_LENGTH);
        return;
      }
      if cmd.scbData == [] {
        n := NakTx(cmd, NAK_UNSUPPORTED_SCB);
        return;
      }
      var key := SelectKey(cmd.scbData[0]);
      if key.None? {
        n := NakTx(cmd, NAK_UNSUPPORTED_SCB);
        return;
      }
      if !hasRandom {
        n := NakTx(cmd, NAK_UNSUPPORTED_SCB);
        return;
      }
      if app.nonce.None? {
        return 0;
      }
      n := AnswerChlng(cmd, key.value, app.nonce.value);
    }

    /** handle_scrypt. */
    method HandleScryptTx(cmd: Frame) returns (n: nat)
      requires Valid() && replyCacheable
      modifies this`gotChlng, session, tx
      ensures Valid() && n <= tx.Length
      ensures HandleScrypt(cipher, Limits(), old(View()), cmd) == Handled(View(), tx[..n], replyCacheable)
    {
      hide EventQueue.Valid, Build, ServerCryptogram, InitialRmac;
      if cmd.code != CMD_SCRYPT {
        n := NakTx(cmd, NAK_UNKNOWN_CMD);
        return;
      }
      if |cmd.payload| != BLOCK {
        n := NakTx(cmd, NAK_CMD_LENGTH);
        return;
      }
      if !gotChlng || cmd.scbData == [] {
        n := NakTx(cmd, NAK_UNSUPPORTED_SCB);
        return;
      }
      var expected := ServerCryptogram(cipher, session.keys.enc, rndA, rndB);
      if cmd.payload != expected {
        var f := HandshakeTx(cmd, 0x14, 0xFF, REPLY_RMAC_I, []);
        gotChlng := false;
        session.established := false;
        return if f.Success? then f.value else 0;
      }
      var rmac := InitialRmac(cipher, session.keys, cmd.payload);
      var r := HandshakeTx(cmd, 0x14, 0x01, REPLY_RMAC_I, rmac);
      if r.Failure? {
        return 0;
      }
      session.lastOutbound := rmac;
      session.lastInbound := rmac;
      session.established := true;
      gotChlng := false;
      n := r.value;
    }

    method FrameSecureTx(cmd: Frame, result: Verdict) returns (n: nat)
      requires Valid() && replyCacheable
      modifies this`replyCacheable, session, tx
      ensures Valid() && n <= tx.Length
      ensures FrameSecure(cipher, Limits(), old(View()), cmd, result) == Handled(View(), tx[..n], replyCacheable)
    {
      hide EventQueue.Valid, Build, Wrap;
      match result {
        case Drop => n := 0;
        case Busy => n := BusyTx(cmd);
        case Reply(code, payload) =>
          var w := session.WrapInto(cipher, SecureReply(cmd, code, payload), tx);
          n := if w.Success? then w.value else 0;
      }
    }

    /** handle_operational: `rx[..len]` is the received frame. */
    method HandleOperationalTx(cmd: Frame, rx: array<byte>, len: nat, app: App) returns (n: nat)
      requires Valid() && replyCacheable && Receives(cmd, rx, len)
      modifies this`newAddress, this`scbk, this`log, this`replyCacheable, session, events, events.buf, events.scratch, tx, rxPlain
      ensures Valid() && n <= tx.Length
      ensures HandleOperational(cipher, Limits(), old(View()), cmd, old(rx[..len]), app) ==
              Handled(View(), tx[..n], replyCacheable)
    {
      hide EventQueue.Valid, Build, Dispatch, FrameSecure, Unwrap, Decode;
      if !session.established {
        n := NakTx(cmd, NAK_UNSUPPORTED_SCB);
        return;
      }
      var plain := session.UnwrapInto(cipher, cmd, rx, len, rxPlain);
      if plain.Failure? {
        return 0;
      }
      var result := DispatchCommand(Secure, cmd.code, rxPlain[..plain.value], app);
      n := FrameSecureTx(cmd, result);
    }

    /** The frame being handled lies in the receive buffer, apart from the
        working regions. */
    ghost predicate Receives(cmd: Frame, rx: array<byte>, len: nat)
      reads rx
    {
      && len <= rx.Length && Decode(rx[..len]) == Success(cmd)
      && rx != tx && rx != rxPlain && rx != rplCache && rx != cmdCache && rx != events.buf && rx != events.scratch
    }

    /** handle_command_into_tx. */
    method HandleTx(cmd: Frame, rx: array<byte>, len: nat, app: App) returns (n: nat)
      requires Valid() && replyCacheable && Receives(cmd, rx, len)
      modifies this`gotChlng, this`rndA, this`rndB, this`newAddress, this`scbk, this`log, this`replyCacheable
      modifies session, events, events.buf, events.scratch, tx, rxPlain
      ensures Valid() && n <= tx.Length
      ensures Handle(cipher, Limits(), old(View()), cmd, old(rx[..len]), app) ==
              Handled(View(), tx[..n], replyCacheable)
    {
      hide EventQueue.Valid, Build, HandlePlain, HandleChlng, HandleScrypt, HandleOperational, Decode;
      if !cmd.hasScb {
        n := HandlePlainTx(cmd, app);
      } else if !cryptoReady || (scbk.None? && scbkD.None?) {
        n := NakTx(cmd, NAK_UNSUPPORTED_SCB);
      } else if cmd.scbType == 0x11 {
        n := HandleChlngTx(cmd, app);
      } else if cmd.scbType == 0x13 {
        n := HandleScryptTx(cmd);
      } else if cmd.scbType == 0x15 || cmd.scbType == 0x17 {
        n := HandleOperationalTx(cmd, rx, len, app);
      } else {
        n := NakTx(cmd, NAK_UNSUPPORTED_SCB);
      }
    }

    // ---- The retransmit cache ----

    method StoreReply(n: nat)
      requires Valid() && n <= tx.Length
      modifies this`lastReplyLen, rplCache
      ensures Valid()
      ensures View() == old(View()).(lastReply := if n <= rplCache.Length then tx[..n] else [])
    {
      hide EventQueue.Valid;
      lastReplyLen := 0;
      if 0 < n <= rplCache.Length {
        lastReplyLen := Append(rplCache, 0, tx[..n]);
      }
    }

    method StoreCommand(rx: array<byte>, len: nat)
      requires Valid() && len <= rx.Length && rx != cmdCache
      modifies this`lastCmdLen, cmdCache
      ensures Valid()
      ensures View() == old(View()).(lastCmd := if len <= cmdCache.Length then rx[..len] else [])
    {
      hide EventQueue.Valid;
      lastCmdLen := 0;
      if 0 < len <= cmdCache.Length {
        lastCmdLen := Append(cmdCache, 0, rx[..len]);
      }
    }

    /** cache_reply. */
    method CacheReply(rx: array<byte>, len: nat, n: nat)
      requires Valid() && len <= rx.Length && n <= tx.Length && rx != rplCache && rx != cmdCache
      modifies this`haveLast, this`lastCmdLen, this`lastReplyLen, rplCache, cmdCache
      ensures Valid()
      ensures View() == Remember(Limits(), old(View()), rx[..len], tx[..n])
    {
      hide EventQueue.Valid;
      StoreReply(n);
      StoreCommand(rx, len);
      haveLast := true;
    }

    /** is_retransmit, comparing byte by byte. */
    method Repeats(cmd: Frame, rx: array<byte>, len: nat) returns (b: bool)
      requires Valid() && len <= rx.Length
      ensures b == IsRetransmit(View(), cmd, rx[..len])
    {
      if cmd.sequence == 0 || !haveLast || lastCmdLen == 0 || len != lastCmdLen {
        return false;
      }
      var i := 0;
      while i < len && cmdCache[i] == rx[i]
        invariant i <= len && cmdCache[..i] == rx[..i]
      {
        i := i + 1;
      }
      b := i == len;
      assert i < len ==> cmdCache[..len][i] != rx[..len][i];
    }

    /** osdp_pd_internal_apply_comset, when a change is staged. */
    method ApplyStaged()
      requires Valid()
      modifies this`address, this`newAddress, this`haveLast
      ensures Valid() && View() == ApplyComset(old(View()))
    {
      hide EventQueue.Valid;
      if newAddress.Some? {
        address := newAddress.value;
        newAddress := None;
        haveLast := false;
      }
    }

    /** process_frame; `out` is what is sent. */
    method ProcessFrame(cmd: Frame, rx: array<byte>, len: nat, app: App) returns (out: seq<byte>)
      requires Valid() && Receives(cmd, rx, len)
      modifies this, session, events, events.buf, events.scratch, tx, rxPlain, rplCache, cmdCache
      ensures Valid()
      ensures Process(cipher, Limits(), old(View()), cmd, old(rx[..len]), app) == Step(View(), out)
    {
      hide EventQueue.Valid, Handle, Decode, Remember, ApplyComset, IsRetransmit;
      var repeated := Repeats(cmd, rx, len);
      if repeated {
        return rplCache[..lastReplyLen];
      }
      replyCacheable := true;
      var n := HandleTx(cmd, rx, len, app);
      out := tx[..n];
      if replyCacheable {
        CacheReply(rx, len, n);
      } else {
        haveLast := false;
      }
      ApplyStaged();
    }

    /** The frame filter of osdp_pd_tick, on one candidate frame. */
    method ReceiveFrame(rx: array<byte>, len: nat, app: App) returns (out: seq<byte>)
      requires Valid() && len <= rx.Length
      requires rx != tx && rx != rxPlain && rx != rplCache && rx != cmdCache && rx != events.buf && rx != events.scratch
      modifies this, session, events, events.buf, events.scratch, tx, rxPlain, rplCache, cmdCache
      ensures Valid()
      ensures Receive(cipher, Limits(), old(View()), old(rx[..len]), app) == Step(View(), out)
    {
      hide Process, Decode, Identity, Build;
      var r := Decode(rx[..len]);
      if r.Failure? {
        if FailsCheck(rx[..len]) {
          var cmd := Identity(rx[..len]);
          if !cmd.reply && cmd.address == address {
            var n := NakTx(cmd, NAK_BAD_CHECK);
            return tx[..n];
          }
        }
        return [];
      }
      if r.value.reply || (r.value.address != address && r.value.address != BROADCAST) {
        return [];
      }
      out := ProcessFrame(r.value, rx, len, app);
    }

    // ---- Events and time ----

    /** osdp_pd_enqueue_event. */
    method Enqueue(e: Event) returns (r: Result<()>)
      requires Valid()
      modifies this`accepted, events, events.buf
      ensures Valid() && View() == Offer(Limits(), old(View()), e)
      ensures r.Success? <==> accepted == old(accepted) + [e]
    {
      r := events.Put(e.code, e.payload);
      if r.Success? {
        accepted := accepted + [e];
      }
    }

    /** The offline transition of check_offline_timeout. */
    method Offline()
      requires Valid()
      modifies this`haveLast, events
      ensures Valid() && View() == GoOffline(old(View()))
      ensures !haveLast && events.items == []
    {
      haveLast := false;
      events.Clear();
    }
  }
}
