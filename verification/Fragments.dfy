/** The PD's sizing queries (pd.c): how much reply payload, and how much of a
    multi-part fragment, fits the channel it is on right now. */
module Fragments {
  import opened Bytes
  import opened Frames
  import opened Ciphers
  import opened Wrapping
  import opened Devices
  import Payloads
  import Macs
  import Exchanges

  const MP_HEADER := 6

  /** The reply shape of max_payload_for_cap. */
  function ReplyShape(address: byte, secured: bool): Frame {
    Frame(address, true, 0, Crc, secured, if secured then 2 else 0, if secured then 0x18 else 0, [], 0, [], [])
  }

  /** max_payload_for_cap. */
  function PayloadForCap(address: byte, secured: bool, cap: nat): nat {
    var shape := ReplyShape(address, secured);
    var r := if secured then ScMaxPayload(shape, cap) else MaxPayload(shape, cap);
    if r.Success? then r.value else 0
  }

  /** osdp_pd_max_fragment_payload, for the smaller of both capacities. */
  function MaxFragment(address: byte, secured: bool, txCap: nat, panelCap: nat): nat {
    var max := PayloadForCap(address, secured, Min(panelCap, txCap));
    if max <= MP_HEADER then 0 else max - MP_HEADER
  }

  lemma {:induction false} ShapeAgrees(address: byte, cmd: Frame, code: byte, payload: seq<byte>, secured: bool, cap: nat)
    ensures var f := if secured then SecureReply(cmd, code, payload) else PlainReply(cmd, code, payload);
            && ScbTotal(f).Success?
            && (cmd.integrity.Crc? ==> MaxPayload(f, cap) == MaxPayload(ReplyShape(address, secured), cap))
            && MaxPayload(f, cap).Success?
            && MaxPayload(f, cap).value >= MaxPayload(ReplyShape(address, secured), cap).value
  {}

  /** More room changes nothing about a message that already fits. */
  lemma {:induction false} BuildWithMoreRoom(f: Frame, cap: nat, larger: nat)
    requires Build(f, cap).Success? && cap <= larger
    ensures Build(f, larger) == Build(f, cap)
  {
    hide FrameBytes;
  }

  lemma {:induction false} WrapWithMoreRoom(c: Cipher, s: Session, f: Frame, cap: nat, larger: nat)
    requires Wrap(c, s, f, cap).Success? && cap <= larger
    ensures Wrap(c, s, f, larger) == Wrap(c, s, f, cap)
  {
    hide FrameBytes, Payloads.Encrypt, Macs.Mac, Prefix;
  }

  /** In CRC mode the reported size is exact: a fragment of `n` bytes with its
      header fits both limits, in clear text or wrapped, exactly up to it. */
  lemma {:induction false} MaxFragmentExact(address: byte, secured: bool, txCap: nat, panelCap: nat, n: nat)
    requires n > 0
    ensures n <= MaxFragment(address, secured, txCap, panelCap) <==>
            Exchanges.ReplyFits(Min(panelCap, txCap), secured, Crc, MP_HEADER + n)
  {
    var cap := Min(panelCap, txCap);
    if secured {
      var framed := MaxPayload(ReplyShape(address, true), cap).value;
      PaddedFits(MP_HEADER + n, framed);
    }
  }

  /** In clear text: a fragment of the reported size with its header is accepted
      by the transmit buffer and respects the panel's limit, and in CRC mode one
      byte more would break one of the two. */
  lemma {:induction false} PlainFragmentFits(cfg: Config, address: byte, panelCap: nat, cmd: Frame, code: byte, payload: seq<byte>)
    requires cmd.address <= 0x7F && cmd.sequence <= 3
    requires var n := MaxFragment(address, false, cfg.txCap, panelCap); n > 0 && |payload| == MP_HEADER + n
    ensures var wire := Build(PlainReply(cmd, code, payload), cfg.txCap);
            wire.Success? && |wire.value| <= cfg.txCap && |wire.value| <= panelCap
    ensures forall more: seq<byte> :: |more| == |payload| + 1 && cmd.integrity.Crc? ==>
              Build(PlainReply(cmd, code, more), Min(panelCap, cfg.txCap)).Failure?
  {
    hide Build;
    var cap := Min(panelCap, cfg.txCap);
    var f := PlainReply(cmd, code, payload);
    ShapeAgrees(address, cmd, code, payload, false, cap);
    BuildFitsExactly(f, cap);
    BuildSize(f, cap);
    BuildWithMoreRoom(f, cap, cfg.txCap);
    forall more: seq<byte> | |more| == |payload| + 1 && cmd.integrity.Crc?
      ensures Build(PlainReply(cmd, code, more), cap).Failure?
    {
      ShapeAgrees(address, cmd, code, more, false, cap);
      BuildFitsExactly(PlainReply(cmd, code, more), cap);
    }
  }

  lemma {:induction false} ScMaxMonotone(framed: nat, larger: nat)
    requires framed <= larger
    ensures (if framed / BLOCK == 0 then 0 else framed / BLOCK * BLOCK - 1)
            <= (if larger / BLOCK == 0 then 0 else larger / BLOCK * BLOCK - 1)
  {}

  /** The same under an established session. */
  lemma {:induction false} SecureFragmentFits(c: Cipher, s: Session, cfg: Config, address: byte, panelCap: nat, cmd: Frame, code: byte, payload: seq<byte>)
    requires s.established && cmd.address <= 0x7F && cmd.sequence <= 3
    requires var n := MaxFragment(address, true, cfg.txCap, panelCap); n > 0 && |payload| == MP_HEADER + n
    ensures var w := Wrap(c, s, SecureReply(cmd, code, payload), cfg.txCap);
            w.Success? && |w.value.wire| <= cfg.txCap && |w.value.wire| <= panelCap
    ensures forall more: seq<byte> :: |more| == |payload| + 1 && cmd.integrity.Crc? ==>
              Wrap(c, s, SecureReply(cmd, code, more), Min(panelCap, cfg.txCap)).Failure?
  {
    hide Wrap, Build;
    var cap := Min(panelCap, cfg.txCap);
    var f := SecureReply(cmd, code, payload);
    ShapeAgrees(address, cmd, code, payload, true, cap);
    ScMaxMonotone(MaxPayload(ReplyShape(address, true), cap).value, MaxPayload(f, cap).value);
    WrapFitsExactly(c, s, f, cap);
    WrapIsBuild(c, s, f, cap);
    BuildSize(Final(c, s, f, cap), cap);
    WrapWithMoreRoom(c, s, f, cap, cfg.txCap);
    forall more: seq<byte> | |more| == |payload| + 1 && cmd.integrity.Crc?
      ensures Wrap(c, s, SecureReply(cmd, code, more), cap).Failure?
    {
      ShapeAgrees(address, cmd, code, more, true, cap);
      WrapFitsExactly(c, s, SecureReply(cmd, code, more), cap);
    }
  }
}
