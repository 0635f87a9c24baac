/** A slot of the control panel as the code has it: sequence, session and
    handshake fields updated in place. Every method is proved equal to its step
    in Controllers. */
module Panels {
  import opened Bytes
  import opened Codes
  import opened Frames
  import opened Ciphers
  import opened Keys
  import opened Wrapping
  import opened Controllers

  class PanelSlot {
    const cipher: Cipher
    const session: SessionState
    /** tx_buf of the panel and the plaintext buffer of handle_sc_reply. */
    const tx: array<byte>
    const plain: array<byte>

    var address: byte
    var integrity: Integrity
    var phase: Phase
    var rndA: Nonce
    var rndB: Nonce
    var selector: byte
    var scbk: Option<Block>
    var scbkD: Option<Block>
    var waiting: bool
    var nextSeq: byte
    var pendingSeq: byte
    var pendingCode: byte
    var online: bool
    /** What the callbacks have been told. */
    var answers: seq<Answer>
    var events: seq<ScEvent>
    ghost var ledger: Ledger

    ghost predicate Valid() {
      tx != plain && tx.Length == BUF_LEN && plain.Length == BUF_LEN
    }

    ghost function View(): Slot
      reads this, session
    {
      Slot(address, integrity, phase, session.View(), rndA, rndB, selector, scbk, scbkD,
           waiting, nextSeq, pendingSeq, pendingCode, online, answers, events, ledger)
    }

    /** osdp_acu_register_pd. */
    constructor (c: Cipher, addr: byte, mode: Integrity)
      ensures Valid() && cipher == c && fresh(session) && fresh(tx) && fresh(plain)
      ensures View() == Slot(addr, mode, Idle, NoSession(), Zeros(RND_LEN), Zeros(RND_LEN), 0, None, None,
                             false, 0, 0, 0, false, [], [], Ledger(0, 0, 0, 0, 0, 0))
    {
      cipher := c;
      session := new SessionState();
      tx := new byte[BUF_LEN](_ => 0);
      plain := new byte[BUF_LEN](_ => 0);
      address, integrity, phase := addr, mode, Idle;
      rndA, rndB := Zeros(RND_LEN), Zeros(RND_LEN);
      selector, scbk, scbkD := 0, None, None;
      waiting, online := false, false;
      nextSeq, pendingSeq, pendingCode := 0, 0, 0;
      answers, events := [], [];
      ledger := Ledger(0, 0, 0, 0, 0, 0);
    }

    // ---- Sending ----

    /** The tail of a send: the command is on the wire. */
    method Mark(seq0: byte, code: byte)
      modifies this`waiting, this`pendingSeq, this`pendingCode, this`ledger
      ensures View() == MarkSent(old(View()), seq0, code)
    {
      hide SessionState.View;
      waiting := true;
      pendingSeq := seq0;
      pendingCode := code;
      ledger := ledger.(sends := ledger.sends + 1);
    }

    /** osdp_acu_send_command, with a transport that takes the whole frame. */
    method Send(code: byte, payload: seq<byte>) returns (r: Result<seq<byte>>)
      requires Valid()
      modifies this`waiting, this`pendingSeq, this`pendingCode, this`ledger, session, tx
      ensures match SendCommand(cipher, old(View()), code, payload)
              case Success(s) => View() == s.slot && r == Success(s.wire)
              case Failure(e) => View() == old(View()) && r == Failure(e)
    {
      hide Build, Wrap;
      if waiting {
        return Failure(NotSupported);
      }
      var seq0 := nextSeq % 4;
      var n: Result<nat>;
      if phase == Established {
        n := session.WrapInto(cipher, Frame(address, false, seq0, integrity, true, 2, 0x17, [], code, payload, []), tx);
      } else {
        n := BuildInto(Frame(address, false, seq0, integrity, false, 0, 0, [], code, payload, []), false, tx);
      }
      if n.Failure? {
        return Failure(n.error);
      }
      Mark(seq0, code);
      r := Success(tx[..n.value]);
    }

    /** send_sc_cmd. */
    method SendSc(scbType: byte, code: byte, payload: seq<byte>) returns (r: Result<seq<byte>>)
      requires Valid()
      modifies this`waiting, this`pendingSeq, this`pendingCode, this`ledger, tx
      ensures match SendHandshake(old(View()), scbType, code, payload)
              case Success(s) => View() == s.slot && r == Success(s.wire)
              case Failure(e) => View() == old(View()) && r == Failure(e)
    {
      hide Build;
      var seq0 := nextSeq % 4;
      var n := BuildInto(Frame(address, false, seq0, integrity, true, 3, scbType, [selector], code, payload, []), false, tx);
      if n.Failure? {
        return Failure(n.error);
      }
      Mark(seq0, code);
      r := Success(tx[..n.value]);
    }

    /** osdp_sc_session_init on the slot's session. */
    method ClearSession()
      modifies session
      ensures session.View() == NoSession()
    {
      var zero: Block := Zeros(BLOCK);
      session.keys := SessionKeys(zero, zero, zero);
      session.lastOutbound, session.lastInbound := zero, zero;
      session.established := false;
    }

    /** Whatever session or handshake there was is reset. */
    method Abandon()
      modifies this`phase, this`ledger, session
      ensures View() == Abandoned(old(View()))
    {
      hide SessionState.View, NoSession;
      ledger := ledger.(resets := ledger.resets + (if phase == Established then 1 else 0),
                        abandoned := ledger.abandoned + (if Awaiting(View()) then 1 else 0));
      ClearSession();
      phase := Idle;
    }

    /** osdp_acu_start_sc_handshake. */
    method Start(useDefault: bool, nonce: Result<Nonce>) returns (r: Result<seq<byte>>)
      requires Valid()
      modifies this`phase, this`rndA, this`selector, this`waiting, this`pendingSeq, this`pendingCode, this`ledger
      modifies session, tx
      ensures StartHandshake(old(View()), useDefault, nonce) == Started(View(), r)
    {
      hide SendHandshake, Abandoned, Begun;
      if (if useDefault then scbkD else scbk).None? {
        return Failure(InvalidArg);
      }
      if waiting {
        return Failure(NotSupported);
      }
      Abandon();
      if nonce.Failure? {
        return Failure(nonce.error);
      }
      rndA := nonce.value;
      selector := if useDefault then 0 else 1;
      r := SendChlng(nonce.value);
    }

    /** osdp_acu_internal_send_chlng, with its nonce drawn. */
    method SendChlng(nonce: Nonce) returns (r: Result<seq<byte>>)
      requires Valid()
      modifies this`phase, this`waiting, this`pendingSeq, this`pendingCode, this`ledger, tx
      ensures match SendHandshake(old(View()), 0x11, CMD_CHLNG, nonce)
              case Success(s) => View() == Begun(s.slot) && r == Success(s.wire)
              case Failure(e) => View() == old(View()) && r == Failure(e)
    {
      hide SendHandshake;
      r := SendSc(0x11, CMD_CHLNG, nonce);
      if r.Success? {
        phase := AwaitingCcrypt;
        ledger := ledger.(starts := ledger.starts + 1);
      }
    }

    // ---- Ending a wait, a handshake or a session ----

    method EndWait()
      modifies this`waiting, this`ledger
      ensures View() == StopWaiting(old(View()))
    {
      ledger := ledger.(consumed := ledger.consumed + if waiting then 1 else 0);
      waiting := false;
    }

    /** reset_sc_handshake with clear_session. */
    method Reset()
      modifies this`phase, this`rndA, this`rndB, session
      ensures View() == ResetHandshake(old(View()))
    {
      phase := Idle;
      rndA, rndB := Zeros(RND_LEN), Zeros(RND_LEN);
      ClearSession();
    }

    /** The common failure exit of the handshake handlers. */
    method Fail()
      modifies this`phase, this`rndA, this`rndB, this`waiting, this`events, this`ledger, session
      ensures View() == FailHandshake(old(View()))
    {
      EndWait();
      Reset();
      events := events + [HandshakeFailed];
    }

    /** osdp_acu_internal_terminate_sc. */
    method TerminateSc()
      modifies this`phase, this`rndA, this`rndB, this`waiting, this`nextSeq, this`events, this`ledger, session
      ensures View() == Terminate(old(View()))
      ensures phase == Idle && !waiting && nextSeq == 0 && session.View() == NoSession()
      ensures events == old(events) + match old(phase) {
                case Established => [SessionLost]
                case Idle => []
                case _ => [HandshakeFailed] }
    {
      var was := phase;
      EndWait();
      nextSeq := 0;
      Reset();
      match was {
        case Established => events := events + [SessionLost];
        case AwaitingCcrypt => events := events + [HandshakeFailed];
        case AwaitingRmacI => events := events + [HandshakeFailed];
        case Idle =>
      }
    }

    // ---- Receiving ----

    /** osdp_acu_internal_deliver_reply. */
    method Deliver(code: byte, payload: seq<byte>)
      modifies this`online, this`waiting, this`nextSeq, this`answers
      ensures View() == DeliverReply(old(View()), code, payload)
    {
      online := true;
      waiting := false;
      nextSeq := if pendingSeq >= 3 then 1 else pendingSeq + 1;
      answers := answers + [Answer(pendingCode, code, payload)];
    }

    /** process_reply. */
    method ProcessReply(f: Frame)
      modifies this, session
      ensures View() == PlainReplyIn(old(View()), f)
    {
      hide Terminate, DeliverReply;
      if f.sequence == 0 && phase == Established {
        TerminateSc();
        return;
      }
      if phase == Established && f.code != REPLY_BUSY {
        TerminateSc();
        return;
      }
      if !waiting {
        return;
      }
      if f.sequence != pendingSeq {
        return;
      }
      Deliver(f.code, f.payload);
    }

    /** osdp_acu_internal_handle_sc_reply; `rx[..len]` is the received frame. */
    method HandleScReply(f: Frame, rx: array<byte>, len: nat)
      requires Valid() && len <= rx.Length && Decode(rx[..len]) == Success(f) && rx != plain
      modifies this, session, plain
      ensures View() == SecureReplyIn(cipher, old(View()), f, old(rx[..len]))
    {
      hide Terminate, DeliverReply, Decode, Unwrap;
      if f.sequence == 0 {
        TerminateSc();
        return;
      }
      if !waiting || f.sequence != pendingSeq {
        return;
      }
      var n := session.UnwrapInto(cipher, f, rx, len, plain);
      if n.Failure? {
        TerminateSc();
        return;
      }
      Deliver(f.code, plain[..n.value]);
    }

    /** osdp_acu_internal_handle_ccrypt; `out` is the SCRYPT that goes out. */
    method HandleCcrypt(f: Frame) returns (out: seq<byte>)
      requires Valid()
      modifies this, session, tx
      ensures CcryptIn(cipher, old(View()), f) == Reacted(View(), out)
    {
      hide FailHandshake, SendHandshake, Derive, ClientCryptogram, ServerCryptogram;
      if f.sequence != pendingSeq {
        return [];
      }
      if f.code != REPLY_CCRYPT || f.scbData == [] || |f.payload| != 32 || f.scbData[0] != selector {
        Fail();
        return [];
      }
      var nonce: Nonce := f.payload[8..16];
      var keys := Derive(cipher, Key(), rndA);
      if ClientCryptogram(cipher, keys.enc, rndA, nonce) != f.payload[16..] {
        Fail();
        return [];
      }
      out := AnswerCcrypt(keys, nonce);
    }

    function Key(): (key: Block)
      reads this, session
      ensures key == HandshakeKey(View())
    {
      var k := if selector == 1 then scbk else scbkD;
      if k.Some? then k.value else Zeros(BLOCK)
    }

    method TakeKeys(keys: SessionKeys, nonce: Nonce)
      modifies this`rndB, this`nextSeq, this`waiting, this`ledger, session
      ensures View() == Keyed(old(View()), keys, nonce)
    {
      rndB := nonce;
      session.keys := keys;
      nextSeq := if pendingSeq >= 3 then 1 else pendingSeq + 1;
      EndWait();
    }

    /** The second half: the cryptogram is good, send ours. */
    method AnswerCcrypt(keys: SessionKeys, nonce: Nonce) returns (out: seq<byte>)
      requires Valid()
      modifies this, session, tx
      ensures var a := old(View());
              var b := Keyed(a, keys, nonce);
              match SendHandshake(b, 0x13, CMD_SCRYPT, ServerCryptogram(cipher, keys.enc, a.rndA, nonce))
              case Failure(_) => View() == FailHandshake(b) && out == []
              case Success(s) => View() == s.slot.(phase := AwaitingRmacI) && out == s.wire
    {
      hide FailHandshake, SendHandshake, ServerCryptogram, Keyed;
      var server := ServerCryptogram(cipher, keys.enc, rndA, nonce);
      TakeKeys(keys, nonce);
      var r := SendSc(0x13, CMD_SCRYPT, server);
      if r.Failure? {
        Fail();
        return [];
      }
      phase := AwaitingRmacI;
      out := r.value;
    }

    /** Both directions of the chain start at the initial R-MAC. */
    method Seed(rmac: Block)
      modifies session
      ensures session.View() == Session(old(session.View()).keys, rmac, rmac, true)
    {
      session.lastOutbound := rmac;
      session.lastInbound := rmac;
      session.established := true;
    }

    method Establish(rmac: Block)
      modifies this, session
      ensures View() == Opened(old(View()), rmac)
    {
      hide SessionState.View;
      EndWait();
      Seed(rmac);
      nextSeq := if pendingSeq >= 3 then 1 else pendingSeq + 1;
      online := true;
      phase := Established;
      events := events + [SessionEstablished];
    }

    /** osdp_acu_internal_handle_rmac_i. */
    method HandleRmacI(f: Frame)
      modifies this, session
      ensures View() == RmacIn(cipher, old(View()), f)
    {
      hide FailHandshake, ServerCryptogram, InitialRmac, Opened;
      if f.sequence != pendingSeq {
        return;
      }
      if f.code != REPLY_RMAC_I || f.scbData == [] || f.scbData[0] != 0x01 || |f.payload| != BLOCK {
        Fail();
        return;
      }
      var server := ServerCryptogram(cipher, session.keys.enc, rndA, rndB);
      var expected := InitialRmac(cipher, session.keys, server);
      if expected != f.payload {
        Fail();
        return;
      }
      Establish(expected);
    }

    /** The routing of osdp_acu_tick, on one candidate frame. */
    method ReceiveFrame(rx: array<byte>, len: nat) returns (out: seq<byte>)
      requires Valid() && len <= rx.Length && rx != plain && rx != tx
      modifies this, session, tx, plain
      ensures Receive(cipher, old(View()), old(rx[..len])) == Reacted(View(), out)
    {
      hide Decode, PlainReplyIn, CcryptIn, RmacIn, SecureReplyIn;
      out := [];
      var r := Decode(rx[..len]);
      if r.Failure? || !r.value.reply || r.value.address != address {
        return;
      }
      var f := r.value;
      if !f.hasScb {
        ProcessReply(f);
      } else if f.scbType == 0x12 {
        if phase == AwaitingCcrypt {
          out := HandleCcrypt(f);
        }
      } else if f.scbType == 0x14 {
        if phase == AwaitingRmacI {
          HandleRmacI(f);
        }
      } else if f.scbType == 0x16 || f.scbType == 0x18 {
        if phase == Established {
          HandleScReply(f, rx, len);
        }
      }
    }

    // ---- Time ----

    /** The reply timeout of scan_timeouts_and_offline. */
    method ReplyLate()
      modifies this`waiting, this`nextSeq, this`ledger
      ensures View() == ReplyTimeout(old(View()))
      ensures !waiting && (old(waiting) ==> nextSeq == old(pendingSeq)) && (!old(waiting) ==> nextSeq == old(nextSeq))
    {
      if waiting {
        waiting := false;
        nextSeq := pendingSeq;
        ledger := ledger.(timeouts := ledger.timeouts + 1);
      }
    }

    /** The end of the online window. */
    method WindowOver()
      modifies this, session
      ensures View() == OfflineTimeout(old(View()))
      ensures !online
      ensures old(online) && old(phase) != Idle ==> phase == Idle && nextSeq == 0 && !waiting && !session.established
    {
      hide Terminate;
      if online {
        online := false;
        if phase != Idle {
          TerminateSc();
        }
      }
    }
  }
}
