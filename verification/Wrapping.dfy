/** Wrapping and unwrapping Secure Channel frames (wrap.c): encryption, MAC,
    integrity and the rolling MAC chain. */
module Wrapping {
  import opened Bytes
  import opened Frames
  import opened Ciphers
  import opened Keys
  import Payloads
  import Macs

  /** osdp_sc_session_t. */
  datatype Session = Session(keys: SessionKeys, lastOutbound: Block, lastInbound: Block, established: bool)

  /** osdp_sc_session_init: all zero, not established. */
  function NoSession(): Session {
    Session(SessionKeys(Zeros(BLOCK), Zeros(BLOCK), Zeros(BLOCK)), Zeros(BLOCK), Zeros(BLOCK), false)
  }

  /** osdp_scb_is_encrypted. */
  predicate Encrypted(scbType: byte) {
    scbType == 0x17 || scbType == 0x18 || scbType == 0x27 || scbType == 0x28
  }

  /** The security block type is dictated by the presence of a payload. */
  function Coerce(scbType: byte, empty: bool): byte {
    if empty then
      if scbType == 0x17 then 0x15 else if scbType == 0x18 then 0x16 else scbType
    else
      if scbType == 0x15 then 0x17 else if scbType == 0x16 then 0x18 else scbType
  }

  /** osdp_sc_max_payload. */
  function ScMaxPayload(shape: Frame, cap: nat): Result<nat> {
    var framed :- MaxPayload(shape, cap);
    if !shape.hasScb || !Encrypted(shape.scbType) then Success(framed)
    else
      var blocks := framed / BLOCK;
      Success(if blocks == 0 then 0 else blocks * BLOCK - 1)
  }

  // ---- Wrapping ----

  /** The template with its final type, its final payload and an empty MAC slot. */
  function Staged(c: Cipher, s: Session, f: Frame, cap: nat): Result<Frame> {
    if !s.established then Failure(InvalidArg)
    else if TagLen(f) == 0 then Failure(InvalidArg)
    else
      var g := f.(scbType := Coerce(f.scbType, f.payload == []), mac := Zeros(Macs.TRUNCATED));
      if !Encrypted(g.scbType) then Success(g)
      else
        var off :- PayloadOffset(g);
        if off >= cap || Payloads.PaddedLen(|f.payload|) > cap - off then Failure(BufferTooSmall)
        else Success(g.(payload := Payloads.Encrypt(c, s.keys.enc, s.lastInbound, f.payload)))
  }

  /** What the MAC covers: the frame up to the MAC, from the SOM on. */
  function MacInput(g: Frame, total: nat): seq<byte>
    requires g.address < 128 && g.sequence < 4
  {
    Prefix(g, total) + g.payload
  }

  datatype Wrapped = Wrapped(wire: seq<byte>, mac: Block)

  /** osdp_sc_wrap_frame: the wire bytes and the MAC that enters the chain. */
  function Wrap(c: Cipher, s: Session, f: Frame, cap: nat): Result<Wrapped> {
    var g :- Staged(c, s, f, cap);
    var total :- BuildLength(g, cap);
    var mac := Macs.Mac(c, s.keys.mac1, s.keys.mac2, s.lastInbound, MacInput(g, total));
    Success(Wrapped([MARK] + FrameBytes(g.(mac := mac[..Macs.TRUNCATED]), total), mac))
  }

  function AfterWrap(s: Session, w: Wrapped): Session {
    s.(lastOutbound := w.mac)
  }

  // ---- Unwrapping ----

  datatype Unwrapped = Unwrapped(plain: seq<byte>, mac: Block)

  /** osdp_sc_unwrap_frame, on the decoded frame and its raw bytes. */
  function Unwrap(c: Cipher, s: Session, f: Frame, raw: seq<byte>, cap: nat): Result<Unwrapped> {
    if !s.established then Failure(InvalidArg)
    else if TagLen(f) == 0 then Failure(InvalidArg)
    else if |f.mac| != Macs.TRUNCATED then Failure(InvalidArg)
    else if |raw| < CheckLen(f.integrity) + Macs.TRUNCATED then Failure(InvalidArg)
    else
      var end := |raw| - CheckLen(f.integrity) - Macs.TRUNCATED;
      var mac := Macs.Mac(c, s.keys.mac1, s.keys.mac2, s.lastOutbound, raw[..end]);
      if mac[..Macs.TRUNCATED] != f.mac then Failure(BadCrc)
      else if Encrypted(f.scbType) then
        var p :- Payloads.Decrypt(c, s.keys.enc, s.lastOutbound, f.payload, cap);
        Success(Unwrapped(p, mac))
      else if |f.payload| > cap then Failure(BufferTooSmall)
      else Success(Unwrapped(f.payload, mac))
  }

  function AfterUnwrap(s: Session, u: Unwrapped): Session {
    s.(lastInbound := u.mac)
  }

  // ---- The wrapped bytes are a built frame ----

  /** The final frame that a wrapped message spells. */
  function Final(c: Cipher, s: Session, f: Frame, cap: nat): Frame
    requires Wrap(c, s, f, cap).Success?
  {
    Staged(c, s, f, cap).value.(mac := Wrap(c, s, f, cap).value.mac[..Macs.TRUNCATED])
  }

  lemma {:induction false} MacOutsidePrefix(g: Frame, mac: seq<byte>, total: nat)
    requires g.address < 128 && g.sequence < 4
    ensures Prefix(g.(mac := mac), total) == Prefix(g, total)
  {}

  /** Patching the MAC and the check bytes into the placeholder frame gives
      exactly the frame built from the final ciphertext and MAC. */
  lemma {:induction false} WrapIsBuild(c: Cipher, s: Session, f: Frame, cap: nat)
    requires Wrap(c, s, f, cap).Success?
    ensures Build(Final(c, s, f, cap), cap) == Success(Wrap(c, s, f, cap).value.wire)
  {
    hide FrameBytes, Payloads.Encrypt, Macs.Mac, Prefix;
  }

  lemma {:induction false} StagedFields(c: Cipher, s: Session, f: Frame, cap: nat)
    requires Staged(c, s, f, cap).Success?
    ensures var g := Staged(c, s, f, cap).value;
            && f.hasScb && g == f.(scbType := g.scbType, mac := g.mac, payload := g.payload)
            && g.scbType == Coerce(f.scbType, f.payload == [])
            && (if Encrypted(g.scbType)
                then g.payload == Payloads.Encrypt(c, s.keys.enc, s.lastInbound, f.payload)
                else g.payload == f.payload)
  {
    hide Payloads.Encrypt;
  }

  /** Only the four-byte MAC types survive the builder's own check. */
  lemma {:induction false} WrapTypes(c: Cipher, s: Session, f: Frame, cap: nat)
    requires Wrap(c, s, f, cap).Success?
    ensures var g := Final(c, s, f, cap);
            && g.hasScb && 0x15 <= g.scbType <= 0x18 && TagLen(g) == Macs.TRUNCATED
            && (Encrypted(g.scbType) <==> f.payload != [])
  {
    hide FrameBytes, Payloads.Encrypt, Macs.Mac, Prefix, Payloads.PaddedLen;
  }

  /** Secure round trip: what one peer wraps, the other decodes and unwraps to
      the exact payload, and their chains meet. */
  lemma {:induction false} UnwrapWrap(c: Cipher, s: Session, f: Frame, cap: nat, r: Session, room: nat)
    requires Inverts(c) && Wrap(c, s, f, cap).Success?
    requires r.established && r.keys == s.keys && r.lastOutbound == s.lastInbound
    requires room >= Payloads.PaddedLen(|f.payload|)
    ensures var w := Wrap(c, s, f, cap).value;
            var raw := w.wire[MARK_LEN..];
            && Decode(raw) == Success(Final(c, s, f, cap))
            && Unwrap(c, r, Decode(raw).value, raw, room) == Success(Unwrapped(f.payload, w.mac))
            && AfterUnwrap(r, Unwrapped(f.payload, w.mac)).lastInbound == AfterWrap(s, w).lastOutbound
  {
    hide Decode, Build, Payloads.Encrypt, Payloads.Decrypt, Macs.Mac, Prefix, FrameBytes;
    var w := Wrap(c, s, f, cap).value;
    var g := Final(c, s, f, cap);
    var raw := w.wire[MARK_LEN..];
    WrapIsBuild(c, s, f, cap);
    WrapTypes(c, s, f, cap);
    DecodeBuild(g, cap);
    WrappedMacInput(c, s, f, cap);
    StagedFields(c, s, f, cap);
    if Encrypted(g.scbType) {
      Payloads.DecryptEncrypt(c, s.keys.enc, s.lastInbound, f.payload, room);
    }
  }

  /** The receiver recomputes the MAC over the bytes the sender covered. */
  lemma {:induction false} WrappedMacInput(c: Cipher, s: Session, f: Frame, cap: nat)
    requires Wrap(c, s, f, cap).Success?
    ensures var w := Wrap(c, s, f, cap).value;
            var raw := w.wire[MARK_LEN..];
            var end := |raw| - CheckLen(f.integrity) - Macs.TRUNCATED;
            && end >= 0 && w.mac == Macs.Mac(c, s.keys.mac1, s.keys.mac2, s.lastInbound, raw[..end])
  {
    hide Payloads.Encrypt, Macs.Mac, Prefix, CheckBytes;
    var staged := Staged(c, s, f, cap).value;
    var total := BuildLength(staged, cap).value;
    var g := Final(c, s, f, cap);
    var w := Wrap(c, s, f, cap).value;
    WrapTypes(c, s, f, cap);
    StagedFields(c, s, f, cap);
    MacOutsidePrefix(staged, g.mac, total);
    var raw := w.wire[MARK_LEN..];
    assert raw == FrameBytes(g, total);
    assert raw == MacInput(staged, total) + g.mac + CheckBytes(g.integrity, Covered(g, total));
    var end := |raw| - CheckLen(f.integrity) - Macs.TRUNCATED;
    assert raw[..end] == MacInput(staged, total);
  }

  /** What the MAC of a received frame covers. */
  function CoveredBytes(f: Frame, raw: seq<byte>): seq<byte>
    requires |raw| >= CheckLen(f.integrity) + Macs.TRUNCATED
  {
    raw[..|raw| - CheckLen(f.integrity) - Macs.TRUNCATED]
  }

  /** Everything that is unwrapped had the right four bytes of MAC over all of the
      frame before the MAC, and that whole MAC enters the chain. */
  lemma {:induction false} UnwrapChecksMac(c: Cipher, s: Session, f: Frame, raw: seq<byte>, cap: nat)
    requires Unwrap(c, s, f, raw, cap).Success?
    ensures |raw| >= CheckLen(f.integrity) + Macs.TRUNCATED
    ensures var u := Unwrap(c, s, f, raw, cap).value;
            && u.mac == Macs.Mac(c, s.keys.mac1, s.keys.mac2, s.lastOutbound, CoveredBytes(f, raw))
            && f.mac == u.mac[..Macs.TRUNCATED]
  {
    hide Macs.Mac, Payloads.Decrypt;
  }

  /** Changing one covered 16-byte block of a frame gives it another whole MAC: it
      is refused, or the four bytes agree by chance and the chains part. */
  lemma {:induction false} ChangedFrame(c: Cipher, s: Session, f: Frame, raw: seq<byte>, f': Frame, raw': seq<byte>, cap: nat, i: nat)
    requires Inverts(c) && Unwrap(c, s, f, raw, cap).Success? && f'.integrity == f.integrity
    requires |raw'| == |raw| && |raw| >= CheckLen(f.integrity) + Macs.TRUNCATED
    requires Macs.DifferInBlock(CoveredBytes(f, raw), CoveredBytes(f', raw'), i)
    ensures Unwrap(c, s, f', raw', cap).Failure?
            || Unwrap(c, s, f', raw', cap).value.mac != Unwrap(c, s, f, raw, cap).value.mac
  {
    hide Unwrap, Macs.Mac, Macs.DifferInBlock;
    UnwrapChecksMac(c, s, f, raw, cap);
    Macs.MacDetects(c, s.keys.mac1, s.keys.mac2, s.lastOutbound, CoveredBytes(f, raw), CoveredBytes(f', raw'), i);
    if Unwrap(c, s, f', raw', cap).Success? {
      UnwrapChecksMac(c, s, f', raw', cap);
    }
  }

  /** Wrapping does not depend on what was sent before: repeating a command
      while nothing new was received yields the same bytes. */
  lemma {:induction false} WrapRepeats(c: Cipher, s: Session, f: Frame, cap: nat, outbound: Block)
    ensures Wrap(c, s.(lastOutbound := outbound), f, cap) == Wrap(c, s, f, cap)
  {
    hide FrameBytes, Payloads.Encrypt, Macs.Mac, Prefix;
  }

  // ---- Exact sizing under the Secure Channel ----

  /** On the encrypted types, osdp_sc_wrap_frame takes a non-empty payload
      exactly up to osdp_sc_max_payload. */
  lemma {:induction false} WrapFitsExactly(c: Cipher, s: Session, f: Frame, cap: nat)
    requires s.established && f.hasScb && (f.scbType == 0x17 || f.scbType == 0x18)
    requires f.address <= 0x7F && f.sequence <= 3 && ScbTotal(f).Success? && |f.payload| > 0
    ensures Wrap(c, s, f, cap).Success? <==> |f.payload| <= ScMaxPayload(f, cap).value
    ensures Wrap(c, s, f, cap).Success? ==>
              |Wrap(c, s, f, cap).value.wire| == MARK_LEN + Overhead(f).value + Payloads.PaddedLen(|f.payload|)
  {
    hide FrameBytes, Payloads.Encrypt, Macs.Mac, Prefix;
    var n := |f.payload|;
    var g := f.(mac := Zeros(Macs.TRUNCATED), payload := Payloads.Encrypt(c, s.keys.enc, s.lastInbound, f.payload));
    PaddedFits(n, MaxPayload(f, cap).value);
    BuildFitsExactly(g, cap);
    if Wrap(c, s, f, cap).Success? {
      WrapIsBuild(c, s, f, cap);
      BuildSize(Final(c, s, f, cap), cap);
    }
  }

  lemma {:induction false} PaddedFits(n: nat, framed: nat)
    requires n > 0
    ensures Payloads.PaddedLen(n) <= framed <==> n <= (if framed / BLOCK == 0 then 0 else framed / BLOCK * BLOCK - 1)
  {
    var q := n / BLOCK;
    assert n == q * BLOCK + n % BLOCK;
    if Payloads.PaddedLen(n) <= framed {
      assert (q + 1) * BLOCK <= framed;
      assert q + 1 <= framed / BLOCK;
    }
  }

  /** The encrypted type a data-bearing template is upgraded to. */
  function Upgraded(f: Frame): Frame {
    f.(scbType := Coerce(f.scbType, false))
  }

  /** On SCS_15/16 shapes the answer of osdp_sc_max_payload is not what wrap
      accepts: wrap upgrades a non-empty payload first, so the bound of the
      upgraded shape decides, and the stated maximum itself is always refused. */
  lemma {:induction false} PlainShapeOverstates(c: Cipher, s: Session, f: Frame, cap: nat)
    requires s.established && f.hasScb && (f.scbType == 0x15 || f.scbType == 0x16)
    requires f.address <= 0x7F && f.sequence <= 3 && ScbTotal(f).Success? && |f.payload| > 0
    ensures Wrap(c, s, f, cap).Success? <==> |f.payload| <= ScMaxPayload(Upgraded(f), cap).value
    ensures |f.payload| == ScMaxPayload(f, cap).value ==> Wrap(c, s, f, cap).Failure?
    ensures (Wrap(c, s, f, cap).Success? <==> |f.payload| <= ScMaxPayload(f, cap).value) <==>
            (|f.payload| <= ScMaxPayload(Upgraded(f), cap).value || |f.payload| > ScMaxPayload(f, cap).value)
  {
    hide FrameBytes, Payloads.Encrypt, Macs.Mac, Prefix;
    WrapFitsExactly(c, s, Upgraded(f), cap);
    WrapUpgrades(c, s, f, cap);
    PaddedFits(|f.payload|, MaxPayload(f, cap).value);
    assert MaxPayload(Upgraded(f), cap) == MaxPayload(f, cap);
    if |f.payload| == ScMaxPayload(f, cap).value {
      StatedMaximumRefused(|f.payload|);
    }
  }

  lemma {:induction false} WrapUpgrades(c: Cipher, s: Session, f: Frame, cap: nat)
    requires f.payload != []
    ensures Wrap(c, s, Upgraded(f), cap) == Wrap(c, s, f, cap)
  {
    hide FrameBytes, Payloads.Encrypt, Macs.Mac, Prefix;
  }

  lemma {:induction false} StatedMaximumRefused(n: nat)
    requires n > 0
    ensures n > if n / BLOCK == 0 then 0 else n / BLOCK * BLOCK - 1
  {}

  // ---- The methods of wrap.c ----

  /** osdp_sc_session_t as the object both roles keep and update. */
  class SessionState {
    var keys: SessionKeys
    var lastOutbound: Block
    var lastInbound: Block
    var established: bool

    function View(): Session
      reads this
    {
      Session(keys, lastOutbound, lastInbound, established)
    }

    /** osdp_sc_session_init. */
    constructor ()
      ensures View() == NoSession()
    {
      var zero: Block := Zeros(BLOCK);
      keys := SessionKeys(zero, zero, zero);
      lastOutbound := zero;
      lastInbound := zero;
      established := false;
    }

    /** The first half of osdp_sc_wrap_frame: settle the type and, for the
        encrypted types, leave the ciphertext in its final place in `out`. */
    method StageInto(c: Cipher, f: Frame, out: array<byte>) returns (r: Result<Frame>)
      modifies out
      ensures r == Staged(c, View(), f, out.Length)
      ensures r.Success? && Encrypted(r.value.scbType) ==>
                var off := PayloadOffset(r.value).value;
                PayloadOffset(r.value).Success? && off + |r.value.payload| <= out.Length
                && out[off..off + |r.value.payload|] == r.value.payload
    {
      hide Payloads.Encrypt;
      if !established || TagLen(f) == 0 {
        return Failure(InvalidArg);
      }
      var built := f.(scbType := Coerce(f.scbType, f.payload == []), mac := Zeros(Macs.TRUNCATED));
      if Encrypted(built.scbType) {
        var off := PayloadOffset(built);
        if off.Failure? {
          return Failure(off.error);
        }
        if off.value >= out.Length {
          return Failure(BufferTooSmall);
        }
        var enc := Payloads.EncryptInto(c, keys.enc, lastInbound, f.payload, out, off.value, out.Length - off.value);
        if enc.Failure? {
          return Failure(enc.error);
        }
        built := built.(payload := out[off.value..off.value + enc.value]);
      }
      r := Success(built);
    }

    /** The second half: `out[..len]` is the frame with an empty MAC slot; put in
        the MAC and recompute the integrity bytes. */
    method Patch(c: Cipher, built: Frame, out: array<byte>, len: nat) returns (mac: Block)
      requires Build(built, out.Length).Success? && TagLen(built) == Macs.TRUNCATED
      requires len == |Build(built, out.Length).value| && out[..len] == Build(built, out.Length).value
      modifies out
      ensures built.address < 128 && built.sequence < 4
      ensures mac == Macs.Mac(c, keys.mac1, keys.mac2, lastInbound, MacInput(built, len - MARK_LEN))
      ensures out[..len] == [MARK] + FrameBytes(built.(mac := mac[..Macs.TRUNCATED]), len - MARK_LEN)
    {
      hide FrameBytes, Macs.Mac, MacInput, CheckBytes, Build;
      PlaceholderParts(built, out.Length);
      var macAt := len - CheckLen(built.integrity) - Macs.TRUNCATED;
      Macs.SliceOfSlice(out[..], 0, len, MARK_LEN, macAt);
      Macs.SliceOfSlice(out[..], 0, len, 0, macAt);
      mac := Macs.Compute(c, keys.mac1, keys.mac2, lastInbound, out, MARK_LEN, macAt - MARK_LEN);
      PatchedParts(built, mac[..Macs.TRUNCATED], len - MARK_LEN);
      var end := Append(out, macAt, mac[..Macs.TRUNCATED]);
      assert out[MARK_LEN..end] == out[..end][MARK_LEN..];
      end := Append(out, end, CheckBytes(built.integrity, out[MARK_LEN..end]));
    }

    /** osdp_sc_wrap_frame: encrypt in place, build around a zero MAC, then
        patch in the MAC and recompute the integrity bytes. */
    method WrapInto(c: Cipher, f: Frame, out: array<byte>) returns (r: Result<nat>)
      modifies this`lastOutbound, out
      ensures match Wrap(c, old(View()), f, out.Length)
              case Success(w) =>
                r == Success(|w.wire|) && |w.wire| <= out.Length && out[..|w.wire|] == w.wire
                && View() == AfterWrap(old(View()), w)
              case Failure(e) => r == Failure(e) && View() == old(View())
    {
      hide FrameBytes, Macs.Mac, Staged, MacInput;
      var staged := StageInto(c, f, out);
      if staged.Failure? {
        return Failure(staged.error);
      }
      var built := staged.value;
      r := BuildInto(built, Encrypted(built.scbType), out);
      if r.Failure? {
        return;
      }
      StagedTag(c, View(), f, out.Length);
      lastOutbound := Patch(c, built, out, r.value);
    }

    /** osdp_sc_unwrap_frame: `rx[..len]` is the received frame that was decoded
        to `f`. */
    method UnwrapInto(c: Cipher, f: Frame, rx: array<byte>, len: nat, plain: array<byte>) returns (r: Result<nat>)
      requires len <= rx.Length && Decode(rx[..len]) == Success(f)
      requires rx != plain
      modifies this`lastInbound, plain
      ensures match Unwrap(c, old(View()), f, old(rx[..len]), plain.Length)
              case Success(u) =>
                r == Success(|u.plain|) && |u.plain| <= plain.Length && plain[..|u.plain|] == u.plain
                && View() == AfterUnwrap(old(View()), u)
              case Failure(e) => r == Failure(e) && View() == old(View())
    {
      hide Decode, Payloads.Decrypt, Macs.Mac;
      DecodedPlaces(rx[..len]);
      if !established || TagLen(f) == 0 || |f.mac| != Macs.TRUNCATED {
        return Failure(InvalidArg);
      }
      var end := len - CheckLen(f.integrity) - Macs.TRUNCATED;
      assert rx[..len][..end] == rx[0..end];
      var mac := Macs.Compute(c, keys.mac1, keys.mac2, lastOutbound, rx, 0, end);
      if mac[..Macs.TRUNCATED] != f.mac {
        return Failure(BadCrc);
      }
      if Encrypted(f.scbType) {
        var at := PayloadOffset(f).value - MARK_LEN;
        assert rx[at..at + |f.payload|] == rx[..len][at..at + |f.payload|] == f.payload;
        r := Payloads.DecryptInto(c, keys.enc, lastOutbound, rx, at, |f.payload|, plain);
        if r.Failure? {
          return;
        }
      } else {
        if |f.payload| > plain.Length {
          return Failure(BufferTooSmall);
        }
        var n := Append(plain, 0, f.payload);
        r := Success(n);
      }
      lastInbound := mac;
    }
  }

  lemma {:induction false} StagedTag(c: Cipher, s: Session, f: Frame, cap: nat)
    requires Staged(c, s, f, cap).Success? && Build(Staged(c, s, f, cap).value, cap).Success?
    ensures var g := Staged(c, s, f, cap).value;
            TagLen(g) == Macs.TRUNCATED && BuildLength(g, cap).value == |Build(g, cap).value| - MARK_LEN
  {
    hide FrameBytes, Payloads.Encrypt, Payloads.PaddedLen, Prefix;
    BuildSize(Staged(c, s, f, cap).value, cap);
  }

  lemma {:induction false} DecodedPlaces(b: seq<byte>)
    requires Decode(b).Success?
    ensures var f := Decode(b).value;
            && PayloadOffset(f).Success?
            && var at := PayloadOffset(f).value - MARK_LEN;
            && at + |f.payload| + TagLen(f) + CheckLen(f.integrity) == |b|
            && b[at..at + |f.payload|] == f.payload
            && |f.mac| == TagLen(f)
  {
    hide Decode, CheckBytes;
    DecodeParts(b);
  }

  /** The placeholder frame in front of its MAC slot. */
  lemma {:induction false} PlaceholderParts(g: Frame, cap: nat)
    requires Build(g, cap).Success? && TagLen(g) > 0
    ensures var wire := Build(g, cap).value;
            var total := |wire| - MARK_LEN;
            var macAt := |wire| - CheckLen(g.integrity) - TagLen(g);
            && g.address < 128 && g.sequence < 4 && BuildLength(g, cap) == Success(total)
            && MARK_LEN <= macAt && wire[MARK_LEN..macAt] == MacInput(g, total)
            && wire[..macAt] == [MARK] + MacInput(g, total)
  {
    hide CheckBytes, Prefix;
    BuildPieces(g, cap);
  }

  lemma {:induction false} PatchedParts(g: Frame, mac: seq<byte>, total: nat)
    requires g.address < 128 && g.sequence < 4
    ensures var body := [MARK] + MacInput(g, total) + mac;
            [MARK] + FrameBytes(g.(mac := mac), total) == body + CheckBytes(g.integrity, body[MARK_LEN..])
  {
    hide CheckBytes, Prefix;
    MacOutsidePrefix(g, mac, total);
    var body := [MARK] + MacInput(g, total) + mac;
    assert body[MARK_LEN..] == Covered(g.(mac := mac), total);
  }
}
