/** Rotating the base key over an open session: a KEYSET exchange and the panel's
    own setter, after which a handshake under the new key completes. */
module Rekeying {
  import opened Bytes
  import opened Codes
  import opened Frames
  import opened Ciphers
  import opened Keys
  import opened Wrapping
  import opened Devices
  import opened Exchanges
  import Accounting
  import Controllers
  import Handshakes
  import Completions
  import Links
  import Policies

  /** The KEYSET that carries `key`. */
  function KeysetOrder(key: Block): Links.Order {
    Links.Order(CMD_KEYSET, [0x01, 0x10] + key)
  }

  /** A new KEYSET about to reach the device of an established pair, which has
      room for it and for a reply, and whose application replies. */
  predicate KeysetArrives(c: Cipher, cfg: Config, s: Links.System, key: Block, app: App) {
    && Links.Invariant(c, cfg, s) && Links.Unseen(c, s) && Secured(s.slot)
    && s.line.ToDevice? && s.outstanding == Some(KeysetOrder(key))
    && s.slot.address == s.device.address
    && !Cramped(cfg.plainCap, KeysetOrder(key).payload)
    && app.verdict.Reply? && ReplyFits(cfg.txCap, true, s.slot.integrity, |app.verdict.payload|)
  }

  lemma {:induction false} KeysetIsStored(c: Cipher, cfg: Config, s: Links.System, key: Block, app: App)
    requires Inverts(c) && Links.WellBound(cfg) && KeysetArrives(c, cfg, s, key, app)
    ensures var d := Links.Act(c, cfg, s, Links.CommandIn(app));
            && d.line.ToPanel? && d.device.scbk == Some(key) && d.device.scbkD == s.device.scbkD
            && d.device.address == s.device.address
            && Decode(d.device.lastCmd).Success? && Decode(d.device.lastCmd).value.scbType != 0x11
  {
    hide Decode, Controllers.CommandWire, Answers, Links.Reported, Links.EventsConserved, HandleOperational, Unwrap,
         ReplyFits, Cramped, Policies.CarriesKey, AnswerBadCheck;
    var o := KeysetOrder(key);
    var raw := Raw(s.line.wire);
    CommandArrives(c, s.slot, o.code, o.payload);
    CommandUnwraps(c, s.slot, o.code, o.payload, s.device.session, cfg.plainCap);
    var cmd := Decode(raw).value;
    Links.NewCommandExecutes(c, cfg, s, app);
    Links.FreshReply(c, cfg, s, app);
    assert !IsRetransmit(s.device, cmd, raw);
    Policies.KeysetOutcome(c, cfg, s.device, cmd, raw, app);
    Policies.DefaultKeyStays(c, cfg, s.device, raw, app);
    KeyOnTheWire(key);
    Policies.KeysetDecision(s.device, o.payload, app);
  }

  lemma {:induction false} KeyOnTheWire(key: Block)
    ensures Policies.CarriesKey(KeysetOrder(key).payload, key)
  {}

  /** The pair once the panel's application has set the key on its side too. */
  function Rekeyed(s: Links.System, key: Block): Handshakes.Pair {
    Handshakes.Pair(s.slot.(scbk := Some(key)), s.device, s.line)
  }

  /** After the exchange and the setter both sides have the same base keys, and
      the pair is ready for a handshake under the new one. */
  lemma {:induction false} RekeyRestores(c: Cipher, cfg: Config, s: Links.System, key: Block, app: App, rndA: Nonce)
    requires Inverts(c) && Links.WellBound(cfg) && KeysetArrives(c, cfg, s, key, app)
    requires s.slot.scbkD == s.device.scbkD && cfg.txCap >= Completions.LONGEST && cfg.hasRandom
    ensures var t := Exchanged(c, cfg, s, app);
            && t.outstanding.None? && t.device.scbk == Some(key)
            && Handshakes.SameBaseKeys(Rekeyed(t, key))
            && Completions.Ready(c, cfg, Rekeyed(t, key), false, rndA)
  {
    hide Decode, Links.Act, Controllers.CommandWire, Answers, Links.EventsConserved, Links.RecordsAgree, ReplyFits, Cramped;
    KeysetIsStored(c, cfg, s, key, app);
    Links.CommandInKeeps(c, cfg, s, app);
    var d := Links.Act(c, cfg, s, Links.CommandIn(app));
    Links.ReplyInIsAnswered(c, cfg, d);
    Links.ReplyInKeeps(c, cfg, d);
    Links.CommandReached(c, cfg, s, app);
  }

  /** The exchange: the command is delivered, and its reply. */
  function Exchanged(c: Cipher, cfg: Config, s: Links.System, app: App): Links.System {
    Links.Act(c, cfg, Links.Act(c, cfg, s, Links.CommandIn(app)), Links.ReplyIn)
  }

  /** The next handshake then opens a session on keys derived from the new key. */
  lemma {:induction false} RekeyCompletes(c: Cipher, cfg: Config, s: Links.System, key: Block, app: App,
                                          rndA: Nonce, app1: App, app2: App)
    requires Inverts(c) && Links.WellBound(cfg) && KeysetArrives(c, cfg, s, key, app)
    requires s.slot.scbkD == s.device.scbkD && cfg.txCap >= Completions.LONGEST && cfg.hasRandom
    requires app1.nonce.Some?
    ensures var p := Rekeyed(Exchanged(c, cfg, s, app), key);
            var q := Completions.AfterHandshake(c, cfg, p, false, rndA, app1, app2);
            && q.slot.phase == Controllers.Phase.Established && q.slot.session == q.device.session
            && q.slot.session.established && q.slot.session.keys == Derive(c, key, rndA)
  {
    hide Exchanged, Completions.AfterHandshake, KeysetArrives, Completions.Ready, Derive;
    RekeyRestores(c, cfg, s, key, app, rndA);
    Completions.HandshakeCompletes(c, cfg, Rekeyed(Exchanged(c, cfg, s, app), key), false, rndA, app1, app2);
  }
}
