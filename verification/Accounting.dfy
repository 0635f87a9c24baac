/** Bookkeeping of a control panel slot over arbitrary runs: any calls of the
    application, any received bytes, any expiry of its timers. */
module Accounting {
  import opened Bytes
  import opened Codes
  import opened Frames
  import opened Ciphers
  import opened Keys
  import opened Wrapping
  import opened Controllers

  datatype Input =
    | Command(code: byte, payload: seq<byte>)
    | Handshake(useDefault: bool, nonce: Result<Nonce>)
    | Received(raw: seq<byte>)
    | TimeoutTick
    | OfflineTick
    | SetKey(key: Block)
    | SetDefaultKey(key: Block)

  function Apply(c: Cipher, a: Slot, input: Input): Slot {
    match input
    case Command(code, payload) =>
      (match SendCommand(c, a, code, payload) case Success(s) => s.slot case Failure(_) => a)
    case Handshake(useDefault, nonce) => StartHandshake(a, useDefault, nonce).slot
    case Received(raw) => Receive(c, a, raw).slot
    case TimeoutTick => ReplyTimeout(a)
    case OfflineTick => OfflineTimeout(a)
    case SetKey(key) => a.(scbk := Some(key))
    case SetDefaultKey(key) => a.(scbkD := Some(key))
  }

  function Run(c: Cipher, a: Slot, inputs: seq<Input>): Slot
    decreases |inputs|
  {
    if inputs == [] then a else Apply(c, Run(c, a, inputs[..|inputs| - 1]), inputs[|inputs| - 1])
  }

  /** osdp_acu_register_pd. */
  function Registered(address: byte, integrity: Integrity): Slot {
    Slot(address, integrity, Idle, NoSession(), Zeros(RND_LEN), Zeros(RND_LEN), 0, None, None,
         false, 0, 0, 0, false, [], [], Ledger(0, 0, 0, 0, 0, 0))
  }

  function Count(events: seq<ScEvent>, e: ScEvent): nat {
    if events == [] then 0
    else Count(events[..|events| - 1], e) + if events[|events| - 1] == e then 1 else 0
  }

  function One(b: bool): nat {
    if b then 1 else 0
  }

  /** Phase and session agree; every transmission, every established session
      and every begun handshake is accounted for. */
  ghost predicate Balanced(a: Slot) {
    && (a.phase == Established <==> a.session.established)
    && a.ledger.sends == |a.answers| + a.ledger.timeouts + a.ledger.consumed + One(a.waiting)
    && Count(a.events, SessionEstablished) ==
       Count(a.events, SessionLost) + a.ledger.resets + One(a.phase == Established)
    && a.ledger.starts == Count(a.events, SessionEstablished) + Count(a.events, HandshakeFailed)
                          + a.ledger.abandoned + One(Awaiting(a))
  }

  /** Sequence numbers stay in range, and a pending one is the next one. */
  predicate InRange(a: Slot) {
    a.address < 128 && a.nextSeq < 4 && a.pendingSeq < 4 && (a.waiting ==> a.pendingSeq == a.nextSeq)
  }

  lemma {:induction false} CountSnoc(events: seq<ScEvent>, x: ScEvent, e: ScEvent)
    ensures Count(events + [x], e) == Count(events, e) + One(x == e)
  {
    assert (events + [x])[..|events|] == events;
  }

  lemma {:induction false} CountAll(events: seq<ScEvent>, x: ScEvent)
    ensures forall e :: Count(events + [x], e) == Count(events, e) + One(x == e)
  {
    forall e
      ensures Count(events + [x], e) == Count(events, e) + One(x == e)
    {
      CountSnoc(events, x, e);
    }
  }

  lemma {:induction false} FailBalances(a: Slot)
    requires Balanced(a) && Awaiting(a)
    ensures Balanced(FailHandshake(a))
  {
    CountAll(a.events, HandshakeFailed);
  }

  lemma {:induction false} TerminateBalances(a: Slot)
    requires Balanced(a)
    ensures Balanced(Terminate(a))
  {
    CountAll(a.events, HandshakeFailed);
    CountAll(a.events, SessionLost);
  }

  lemma {:induction false} DeliverBalances(a: Slot, code: byte, payload: seq<byte>)
    requires Balanced(a) && a.waiting
    ensures Balanced(DeliverReply(a, code, payload))
  {}

  lemma {:induction false} CcryptBalances(c: Cipher, a: Slot, f: Frame)
    requires Balanced(a) && a.phase == AwaitingCcrypt
    ensures Balanced(CcryptIn(c, a, f).slot)
  {
    hide Build, Derive, ClientCryptogram, ServerCryptogram, Balanced, FailHandshake, Count;
    FailBalances(a);
    if f.sequence == a.pendingSeq && |f.payload| == 32 {
      var rndB: Nonce := f.payload[8..16];
      var keys := Derive(c, Controllers.HandshakeKey(a), a.rndA);
      var b := StopWaiting(a).(rndB := rndB, session := a.session.(keys := keys), nextSeq := Advance(a.pendingSeq));
      NewKeysBalance(a, b);
      FailBalances(b);
      NextStepBalances(b, ServerCryptogram(c, keys.enc, a.rndA, rndB));
    }
  }

  lemma {:induction false} NewKeysBalance(a: Slot, b: Slot)
    requires Balanced(a)
    requires b == StopWaiting(a).(rndB := b.rndB, session := a.session.(keys := b.session.keys), nextSeq := b.nextSeq)
    ensures Balanced(b)
  {
    hide Count;
  }

  lemma {:induction false} NextStepBalances(b: Slot, payload: seq<byte>)
    requires Balanced(b) && b.phase == AwaitingCcrypt && !b.waiting
    ensures var s := SendHandshake(b, 0x13, CMD_SCRYPT, payload);
            s.Success? ==> Balanced(s.value.slot.(phase := AwaitingRmacI))
  {
    hide Build, Count;
  }

  lemma {:induction false} RmacBalances(c: Cipher, a: Slot, f: Frame)
    requires Balanced(a) && a.phase == AwaitingRmacI
    ensures Balanced(RmacIn(c, a, f))
  {
    hide InitialRmac, ServerCryptogram, FailHandshake, Count;
    FailBalances(a);
    CountAll(a.events, SessionEstablished);
  }

  lemma {:induction false} SecureReplyBalances(c: Cipher, a: Slot, f: Frame, raw: seq<byte>)
    requires Balanced(a)
    ensures Balanced(SecureReplyIn(c, a, f, raw))
  {
    hide Unwrap, Terminate, Count, DeliverReply;
    TerminateBalances(a);
    if a.waiting {
      match Unwrap(c, a.session, f, raw, BUF_LEN)
      case Failure(_) =>
      case Success(u) =>
        var b := a.(session := AfterUnwrap(a.session, u));
        DeliverBalances(b, f.code, u.plain);
    }
  }

  lemma {:induction false} ReceiveBalances(c: Cipher, a: Slot, raw: seq<byte>)
    requires Balanced(a)
    ensures Balanced(Receive(c, a, raw).slot)
  {
    hide Decode, CcryptIn, RmacIn, SecureReplyIn, Balanced, Terminate, DeliverReply;
    match Decode(raw)
    case Failure(_) =>
    case Success(f) =>
      TerminateBalances(a);
      SecureReplyBalances(c, a, f, raw);
      if a.waiting { DeliverBalances(a, f.code, f.payload); }
      if a.phase == AwaitingCcrypt { CcryptBalances(c, a, f); }
      if a.phase == AwaitingRmacI { RmacBalances(c, a, f); }
  }

  lemma {:induction false} StartBalances(a: Slot, useDefault: bool, nonce: Result<Nonce>)
    requires Balanced(a)
    ensures Balanced(StartHandshake(a, useDefault, nonce).slot)
  {
    hide Build, Count;
  }

  lemma {:induction false} SendBalances(c: Cipher, a: Slot, code: byte, payload: seq<byte>)
    requires Balanced(a) && SendCommand(c, a, code, payload).Success?
    ensures Balanced(SendCommand(c, a, code, payload).value.slot)
  {
    hide CommandWire, Count;
  }

  lemma {:induction false} ApplyBalances(c: Cipher, a: Slot, input: Input)
    requires Balanced(a)
    ensures Balanced(Apply(c, a, input))
  {
    hide SendCommand, StartHandshake, Receive, Count, Terminate;
    match input
    case Command(code, payload) =>
      if SendCommand(c, a, code, payload).Success? { SendBalances(c, a, code, payload); }
    case Handshake(useDefault, nonce) => StartBalances(a, useDefault, nonce);
    case Received(raw) => ReceiveBalances(c, a, raw);
    case TimeoutTick =>
    case OfflineTick => TerminateBalances(a.(online := false));
    case SetKey(_) =>
    case SetDefaultKey(_) =>
  }

  /** The books balance after every run of a registered slot. */
  lemma {:induction false} RunBalances(c: Cipher, address: byte, integrity: Integrity, inputs: seq<Input>)
    ensures Balanced(Run(c, Registered(address, integrity), inputs))
    decreases |inputs|
  {
    hide Apply;
    if inputs != [] {
      var n := |inputs| - 1;
      RunBalances(c, address, integrity, inputs[..n]);
      ApplyBalances(c, Run(c, Registered(address, integrity), inputs[..n]), inputs[n]);
    }
  }

  // ---- Sequence numbers over runs ----

  /** The sequence number of the n-th command of a fresh slot. */
  function SequenceAt(n: nat): byte {
    if n == 0 then 0 else Advance(SequenceAt(n - 1))
  }

  /** Zero once, and then 1, 2, 3 over and over. */
  lemma {:induction false} SequenceCycles(n: nat)
    ensures SequenceAt(n) == if n == 0 then 0 else (n - 1) % 3 + 1
  {
    if n > 0 {
      SequenceCycles(n - 1);
    }
  }

  /** advance_sqn never repeats its argument and never returns zero. */
  lemma AdvanceMoves(seq0: byte)
    ensures Advance(seq0) != seq0 && 1 <= Advance(seq0) <= 3
  {}

  lemma {:induction false} ReceiveInRange(c: Cipher, a: Slot, raw: seq<byte>)
    requires InRange(a)
    ensures InRange(Receive(c, a, raw).slot)
  {
    hide Decode, CcryptIn, PlainReplyIn, RmacIn, SecureReplyIn;
    match Decode(raw)
    case Failure(_) =>
    case Success(f) =>
      CcryptInRange(c, a, f);
      RepliesInRange(c, a, f, raw);
  }

  lemma {:induction false} RepliesInRange(c: Cipher, a: Slot, f: Frame, raw: seq<byte>)
    requires InRange(a)
    ensures InRange(PlainReplyIn(a, f)) && InRange(RmacIn(c, a, f)) && InRange(SecureReplyIn(c, a, f, raw))
  {
    hide Unwrap;
  }

  lemma {:induction false} CcryptInRange(c: Cipher, a: Slot, f: Frame)
    requires InRange(a)
    ensures InRange(CcryptIn(c, a, f).slot)
  {
    hide Build, Derive, ClientCryptogram, ServerCryptogram;
  }

  lemma {:induction false} ApplyInRange(c: Cipher, a: Slot, input: Input)
    requires InRange(a)
    ensures InRange(Apply(c, a, input))
  {
    hide CommandWire, Build, Receive;
    match input
    case Command(_, _) =>
    case Handshake(_, _) =>
    case Received(raw) => ReceiveInRange(c, a, raw);
    case TimeoutTick =>
    case OfflineTick =>
    case SetKey(_) =>
    case SetDefaultKey(_) =>
  }

  lemma {:induction false} RunInRange(c: Cipher, address: byte, integrity: Integrity, inputs: seq<Input>)
    requires address < 128
    ensures InRange(Run(c, Registered(address, integrity), inputs))
    decreases |inputs|
  {
    hide Apply;
    if inputs != [] {
      var n := |inputs| - 1;
      RunInRange(c, address, integrity, inputs[..n]);
      ApplyInRange(c, Run(c, Registered(address, integrity), inputs[..n]), inputs[n]);
    }
  }

  /** In such a slot the challenge always fits, so starting a handshake with a
      key set fails exactly while a reply is outstanding or when the random
      source fails. The first failure changes nothing; the second has already
      ended the session, and no event says so. */
  lemma {:induction false} StartOutcome(a: Slot, useDefault: bool, nonce: Result<Nonce>)
    requires InRange(a) && (if useDefault then a.scbkD else a.scbk).Some?
    ensures var s := StartHandshake(a, useDefault, nonce);
            && (s.wire.Success? <==> !a.waiting && nonce.Success?)
            && (a.waiting ==> s.slot == a)
            && (!a.waiting && nonce.Failure? ==>
                  s.slot.phase == Idle && !s.slot.session.established && s.slot.events == a.events
                  && s.slot.nextSeq == a.nextSeq)
  {
    hide FrameBytes;
  }
}
