/** The OSDP frame layer (section 5.9 of SIA OSDP v2.2.2): a builder and a
    decoder that are inverse to each other, with exact size arithmetic. */
module Frames {
  import opened Bytes
  import Crc16

  const SOM: byte := 0x53
  const MARK: byte := 0xFF
  const HEADER_LEN := 5
  const MARK_LEN := 1
  const MIN_LEN := 7
  const MAX_LEN := 1440
  const SCB_MIN_LEN := 2

  datatype Integrity = Checksum | Crc

  /** osdp_frame_t. A sequence stands for each pointer and its length. */
  datatype Frame = Frame(
    address: byte,
    reply: bool,
    sequence: byte,
    integrity: Integrity,
    hasScb: bool,
    scbLength: byte,
    scbType: byte,
    scbData: seq<byte>,
    code: byte,
    payload: seq<byte>,
    mac: seq<byte>)

  // ---- Sizes ----

  /** osdp_scb_mac_len: 4 bytes for SCS_15..18, 16 for SCS_25..28. */
  function MacLen(scbType: byte): nat {
    if 0x15 <= scbType <= 0x18 then 4
    else if 0x25 <= scbType <= 0x28 then 16
    else 0
  }

  function TagLen(f: Frame): nat {
    if f.hasScb then MacLen(f.scbType) else 0
  }

  function CheckLen(i: Integrity): nat {
    if i.Crc? then 2 else 1
  }

  /** frame_scb_total. */
  function ScbTotal(f: Frame): Result<nat> {
    if !f.hasScb then Success(0)
    else if f.scbLength < SCB_MIN_LEN then Failure(InvalidArg)
    else if |f.scbData| != f.scbLength - SCB_MIN_LEN then Failure(InvalidArg)
    else Success(f.scbLength)
  }

  /** frame_overhead, without the marking byte. */
  function Overhead(f: Frame): Result<nat> {
    var scb :- ScbTotal(f);
    Success(HEADER_LEN + scb + 1 + TagLen(f) + CheckLen(f.integrity))
  }

  /** osdp_frame_max_payload. */
  function MaxPayload(shape: Frame, cap: nat): Result<nat> {
    var only :- Overhead(shape);
    if cap <= MARK_LEN + only then Success(0)
    else if only < MAX_LEN then Success(Min(cap - MARK_LEN - only, MAX_LEN - only))
    else Success(0)
  }

  /** osdp_frame_payload_offset. */
  function PayloadOffset(f: Frame): Result<nat> {
    var scb :- ScbTotal(f);
    Success(MARK_LEN + HEADER_LEN + scb + 1)
  }

  // ---- The bytes of a frame ----

  function AddressByte(f: Frame): byte
    requires f.address < 128
  {
    f.address + if f.reply then 128 else 0
  }

  function CtrlByte(f: Frame): byte
    requires f.sequence < 4
  {
    f.sequence + (if f.integrity.Crc? then 4 else 0) + (if f.hasScb then 8 else 0)
  }

  /** The fields of CTRL, on a byte whose reserved bits are clear: the sequence
      number (bits 0 and 1), OSDP_CTRL_USE_CRC and OSDP_CTRL_SCB. */
  function SequenceBits(ctrl: byte): byte
    requires ctrl < 16
  {
    if ctrl < 4 then ctrl else if ctrl < 8 then ctrl - 4 else if ctrl < 12 then ctrl - 8 else ctrl - 12
  }

  predicate CrcBit(ctrl: byte) {
    4 <= ctrl < 8 || 12 <= ctrl < 16
  }

  predicate ScbBit(ctrl: byte) {
    8 <= ctrl < 16
  }

  /** The seven address bits, without the reply flag. */
  function AddressBits(addr: byte): byte {
    if addr >= 128 then addr - 128 else addr
  }

  function Sum(data: seq<byte>): byte {
    if data == [] then 0
    else
      var t := Sum(data[..|data| - 1]) + data[|data| - 1];
      if t >= 256 then t - 256 else t
  }

  /** osdp_checksum: the two's complement of the byte sum. */
  function ChecksumByte(data: seq<byte>): byte {
    if Sum(data) == 0 then 0 else 256 - Sum(data)
  }

  function CheckBytes(i: Integrity, data: seq<byte>): (s: seq<byte>)
    ensures |s| == CheckLen(i)
  {
    if i.Crc? then Crc16.CheckBytes(Crc16.Crc(data)) else [ChecksumByte(data)]
  }

  function HeaderBytes(f: Frame, total: nat): (s: seq<byte>)
    requires f.address < 128 && f.sequence < 4
    ensures |s| == HEADER_LEN
  {
    [SOM, AddressByte(f), Low(total), High(total), CtrlByte(f)]
  }

  function ScbBytes(f: Frame): seq<byte> {
    if f.hasScb then [f.scbLength, f.scbType] + f.scbData else []
  }

  /** Everything in front of the payload, from the SOM on. */
  function Prefix(f: Frame, total: nat): seq<byte>
    requires f.address < 128 && f.sequence < 4
  {
    HeaderBytes(f, total) + ScbBytes(f) + [f.code]
  }

  /** Everything the integrity bytes cover. */
  function Covered(f: Frame, total: nat): seq<byte>
    requires f.address < 128 && f.sequence < 4
  {
    Prefix(f, total) + f.payload + f.mac
  }

  /** The argument checks of osdp_frame_build, in its order. */
  function BuildLength(f: Frame, cap: nat): Result<nat> {
    if f.address > 0x7F then Failure(InvalidArg)
    else if f.sequence > 3 then Failure(InvalidArg)
    else
      var scb :- ScbTotal(f);
      if |f.mac| != TagLen(f) then Failure(InvalidArg)
      else
        var total := HEADER_LEN + scb + 1 + |f.payload| + TagLen(f) + CheckLen(f.integrity);
        if total > MAX_LEN then Failure(InvalidArg)
        else if MARK_LEN + total > cap then Failure(BufferTooSmall)
        else Success(total)
  }

  /** The bytes from the SOM on. */
  function FrameBytes(f: Frame, total: nat): seq<byte>
    requires f.address < 128 && f.sequence < 4
  {
    Covered(f, total) + CheckBytes(f.integrity, Covered(f, total))
  }

  /** What osdp_frame_build puts in a buffer of `cap` bytes. */
  function Build(f: Frame, cap: nat): Result<seq<byte>> {
    var total :- BuildLength(f, cap);
    Success([MARK] + FrameBytes(f, total))
  }

  // ---- Decoding ----

  /** osdp_frame_decode. */
  function Decode(b: seq<byte>): Result<Frame> {
    if |b| < MIN_LEN then Failure(Truncated)
    else if b[0] != SOM then Failure(BadSom)
    else if Le16(b[2], b[3]) != |b| then Failure(BadLength)
    else if |b| > MAX_LEN then Failure(BadLength)
    else if b[4] >= 16 then Failure(BadCtrl)
    else
      var integrity := if CrcBit(b[4]) then Crc else Checksum;
      var hasScb := ScbBit(b[4]);
      if |b| < HEADER_LEN + 1 + CheckLen(integrity) then Failure(Truncated)
      else if !hasScb then
        DecodeTail(b, integrity, false, 0, 0, [], HEADER_LEN)
      else if HEADER_LEN + SCB_MIN_LEN > |b| then Failure(Truncated)
      else if b[5] < SCB_MIN_LEN then Failure(BadLength)
      else if HEADER_LEN + b[5] + 1 + CheckLen(integrity) > |b| then Failure(BadLength)
      else
        DecodeTail(b, integrity, true, b[5], b[6], b[7..HEADER_LEN + b[5]], HEADER_LEN + b[5])
  }

  /** Code byte, payload, MAC and integrity, once the security block is read. */
  function DecodeTail(b: seq<byte>, integrity: Integrity, hasScb: bool, scbLength: byte,
                      scbType: byte, scbData: seq<byte>, cursor: nat): Result<Frame>
    requires HEADER_LEN <= cursor && cursor + 1 + CheckLen(integrity) <= |b| && b[4] < 16
  {
    var end := |b| - CheckLen(integrity);
    var tag := if hasScb then MacLen(scbType) else 0;
    if end - (cursor + 1) < tag then Failure(BadPayload)
    else if b[end..] != CheckBytes(integrity, b[..end]) then
      Failure(if integrity.Crc? then BadCrc else BadChecksum)
    else
      Success(Frame(AddressBits(b[1]), b[1] >= 128, SequenceBits(b[4]), integrity, hasScb, scbLength, scbType,
                    scbData, b[cursor], b[cursor + 1..end - tag], b[end - tag..end]))
  }

  /** The bytes form a frame but for their check bytes. */
  predicate FailsCheck(b: seq<byte>) {
    Decode(b) == Failure(BadCrc) || Decode(b) == Failure(BadChecksum)
  }

  /** What osdp_frame_decode reports of such bytes: address, direction, sequence
      number and integrity mode. */
  function Identity(b: seq<byte>): Frame
    requires FailsCheck(b)
  {
    Frame(AddressBits(b[1]), b[1] >= 128, SequenceBits(b[4]), if CrcBit(b[4]) then Crc else Checksum,
          false, 0, 0, [], 0, [], [])
  }

  /** The template fields a frame without a security block does not carry. */
  function Canonical(f: Frame): Frame {
    if f.hasScb then f else f.(scbLength := 0, scbType := 0, scbData := [])
  }

  // ---- The bytes on the wire ----

  /** Section 5.9 of SIA OSDP, byte by byte: after the marking byte, the SOM, the
      address with the reply flag, the length of all but the marking byte, CTRL,
      the security block if there is one, code, payload, MAC, and the checksum or
      the CRC, low byte first, of everything from the SOM on. */
  lemma {:induction false} WireLayout(f: Frame, cap: nat)
    requires Build(f, cap).Success?
    ensures Build(f, cap).value != [] && Build(f, cap).value[0] == 0xFF
    ensures var b := Build(f, cap).value[1..];
            var scb := if f.hasScb then f.scbLength as int else 0;
            var at := 5 + scb;
            var end := |b| - (if f.integrity.Crc? then 2 else 1);
            && end == at + 1 + |f.payload| + |f.mac| && b[0] == 0x53
            && b[1] as int == f.address + (if f.reply then 0x80 else 0)
            && b[2] as int + 256 * b[3] as int == |b|
            && b[4] as int == f.sequence + (if f.integrity.Crc? then 0x04 else 0) + (if f.hasScb then 0x08 else 0)
            && (f.hasScb ==> scb >= 2 && b[5] == f.scbLength && b[6] == f.scbType && b[7..at] == f.scbData)
            && b[at] == f.code
            && b[at + 1..at + 1 + |f.payload|] == f.payload && b[at + 1 + |f.payload|..end] == f.mac
            && (if f.integrity.Crc? then b[end..] == Crc16.CheckBytes(Crc16.Crc(b[..end]))
                else b[end..] == [ChecksumByte(b[..end])])
  {
    hide Crc16.Crc, Crc16.CheckBytes, ChecksumByte, FrameBytes, Covered;
    var total := BuildLength(f, cap).value;
    Layout(f, total);
    assert Build(f, cap).value[1..] == FrameBytes(f, total);
    Le16RoundTrip(total);
    Le16Value(Low(total), High(total));
  }

  // ---- Round trips ----

  lemma {:induction false} FourParts(p: seq<byte>, q: seq<byte>, r: seq<byte>, t: seq<byte>, b: seq<byte>)
    requires b == p + q + r + t
    ensures b[..|p|] == p
    ensures b[|p|..|p| + |q|] == q
    ensures b[|p| + |q|..|p| + |q| + |r|] == r
    ensures b[..|p| + |q| + |r|] == p + q + r
    ensures b[|p| + |q| + |r|..] == t
  {}

  lemma {:induction false} PrefixShape(f: Frame, total: nat)
    requires f.address < 128 && f.sequence < 4 && ScbTotal(f).Success?
    ensures var p := Prefix(f, total);
            && |p| == HEADER_LEN + ScbTotal(f).value + 1
            && p[..HEADER_LEN] == HeaderBytes(f, total)
            && p[|p| - 1] == f.code
            && (f.hasScb ==> p[5] == f.scbLength && p[6] == f.scbType && p[7..|p| - 1] == f.scbData)
  {}

  /** Where the parts of a built frame lie. */
  lemma {:induction false} Layout(f: Frame, total: nat)
    requires f.address < 128 && f.sequence < 4 && ScbTotal(f).Success?
    requires |f.mac| == TagLen(f)
    requires total == HEADER_LEN + ScbTotal(f).value + 1 + |f.payload| + TagLen(f) + CheckLen(f.integrity)
    ensures var b := FrameBytes(f, total);
            var cursor := HEADER_LEN + ScbTotal(f).value;
            var end := total - CheckLen(f.integrity);
            && |b| == total
            && b[0] == SOM && b[1] == AddressByte(f) && b[2] == Low(total) && b[3] == High(total)
            && b[4] == CtrlByte(f)
            && (f.hasScb ==> b[5] == f.scbLength && b[6] == f.scbType && b[7..cursor] == f.scbData)
            && b[cursor] == f.code
            && b[cursor + 1..end - TagLen(f)] == f.payload
            && b[end - TagLen(f)..end] == f.mac
            && b[..end] == Covered(f, total)
            && b[end..] == CheckBytes(f.integrity, b[..end])
  {
    hide CheckBytes, Prefix, HeaderBytes;
    var p := Prefix(f, total);
    var check := CheckBytes(f.integrity, Covered(f, total));
    var b := FrameBytes(f, total);
    PrefixShape(f, total);
    FourParts(p, f.payload, f.mac, check, b);
    HeaderAt(f, total, p);
    forall i | 0 <= i < |p| ensures b[i] == p[i] {}
    if f.hasScb {
      assert b[7..|p| - 1] == p[7..|p| - 1];
    }
  }

  lemma {:induction false} HeaderAt(f: Frame, total: nat, p: seq<byte>)
    requires f.address < 128 && f.sequence < 4
    requires |p| >= HEADER_LEN && p[..HEADER_LEN] == HeaderBytes(f, total)
    ensures p[0] == SOM && p[1] == AddressByte(f) && p[2] == Low(total) && p[3] == High(total)
    ensures p[4] == CtrlByte(f)
  {
    var h := p[..HEADER_LEN];
    assert p[0] == h[0] && p[1] == h[1] && p[2] == h[2] && p[3] == h[3] && p[4] == h[4];
  }

  lemma {:induction false} CtrlByteFields(f: Frame)
    requires f.address < 128 && f.sequence < 4
    ensures AddressByte(f) % 128 == f.address && (AddressByte(f) >= 128 <==> f.reply)
    ensures CtrlByte(f) < 16 && CtrlByte(f) % 4 == f.sequence
    ensures CrcBit(CtrlByte(f)) <==> f.integrity == Crc
    ensures ScbBit(CtrlByte(f)) <==> f.hasScb
  {}

  lemma {:induction false} DecodeFrameBytes(f: Frame, total: nat)
    requires f.address < 128 && f.sequence < 4 && ScbTotal(f).Success?
    requires |f.mac| == TagLen(f) && total <= MAX_LEN
    requires total == HEADER_LEN + ScbTotal(f).value + 1 + |f.payload| + TagLen(f) + CheckLen(f.integrity)
    ensures Decode(FrameBytes(f, total)) == Success(Canonical(f))
  {
    hide CheckBytes, FrameBytes, Covered, CtrlByte, AddressByte, Le16, Low, High;
    Layout(f, total);
    CtrlByteFields(f);
    Le16RoundTrip(total);
  }

  /** What osdp_frame_build writes, osdp_frame_decode reads back. */
  lemma {:induction false} DecodeBuild(f: Frame, cap: nat)
    requires Build(f, cap).Success?
    ensures Decode(Build(f, cap).value[MARK_LEN..]) == Success(Canonical(f))
  {
    hide Decode, FrameBytes;
    var total := BuildLength(f, cap).value;
    var b := FrameBytes(f, total);
    assert Build(f, cap).value[MARK_LEN..] == b;
    DecodeFrameBytes(f, total);
  }

  lemma {:induction false} BitFields(a: byte, c: byte)
    ensures a == a % 128 + if a >= 128 then 128 else 0
    ensures c < 16 ==> c == c % 4 + (if CrcBit(c) then 4 else 0) + (if ScbBit(c) then 8 else 0)
  {}

  lemma {:induction false} TailParts(b: seq<byte>, integrity: Integrity, hasScb: bool, scbLength: byte,
                                     scbType: byte, scbData: seq<byte>, cursor: nat)
    requires HEADER_LEN <= cursor && cursor + 1 + CheckLen(integrity) <= |b| && b[4] < 16
    requires DecodeTail(b, integrity, hasScb, scbLength, scbType, scbData, cursor).Success?
    ensures var f := DecodeTail(b, integrity, hasScb, scbLength, scbType, scbData, cursor).value;
            var end := |b| - CheckLen(integrity);
            && f.integrity == integrity && f.hasScb == hasScb && f.scbLength == scbLength
            && f.scbType == scbType && f.scbData == scbData
            && f.address == b[1] % 128 && f.reply == (b[1] >= 128) && f.sequence == b[4] % 4
            && cursor + 1 + TagLen(f) <= end
            && b[cursor] == f.code
            && b[cursor + 1..end - TagLen(f)] == f.payload
            && b[end - TagLen(f)..end] == f.mac && |f.mac| == TagLen(f)
            && b[end..] == CheckBytes(f.integrity, b[..end])
  {
    hide CheckBytes;
  }

  /** The fields of an accepted frame, by position. */
  lemma {:induction false} DecodeParts(b: seq<byte>)
    requires Decode(b).Success?
    ensures var f := Decode(b).value;
            var end := |b| - CheckLen(f.integrity);
            && f.address < 128 && f.sequence < 4 && ScbTotal(f).Success?
            && HEADER_LEN + ScbTotal(f).value + 1 + TagLen(f) <= end <= |b| <= MAX_LEN
            && Le16(b[2], b[3]) == |b|
            && b[0] == SOM && b[1] == AddressByte(f) && b[4] == CtrlByte(f)
            && (f.hasScb ==> b[5] == f.scbLength && b[6] == f.scbType
                             && b[7..HEADER_LEN + ScbTotal(f).value] == f.scbData)
            && b[HEADER_LEN + ScbTotal(f).value] == f.code
            && b[HEADER_LEN + ScbTotal(f).value + 1..end - TagLen(f)] == f.payload
            && b[end - TagLen(f)..end] == f.mac && |f.mac| == TagLen(f)
            && b[end..] == CheckBytes(f.integrity, b[..end])
            && Canonical(f) == f
  {
    hide CheckBytes, DecodeTail, MacLen, Le16;
    BitFields(b[1], b[4]);
    var integrity := if CrcBit(b[4]) then Crc else Checksum;
    if ScbBit(b[4]) {
      TailParts(b, integrity, true, b[5], b[6], b[7..HEADER_LEN + b[5]], HEADER_LEN + b[5]);
    } else {
      TailParts(b, integrity, false, 0, 0, [], HEADER_LEN);
    }
  }

  lemma {:induction false} PrefixFromParts(b: seq<byte>, f: Frame)
    requires f.address < 128 && f.sequence < 4 && ScbTotal(f).Success?
    requires |b| >= HEADER_LEN + ScbTotal(f).value + 1
    requires b[0] == SOM && b[1] == AddressByte(f) && b[2] == Low(|b|) && b[3] == High(|b|) && b[4] == CtrlByte(f)
    requires f.hasScb ==> b[5] == f.scbLength && b[6] == f.scbType
                          && b[7..HEADER_LEN + ScbTotal(f).value] == f.scbData
    requires b[HEADER_LEN + ScbTotal(f).value] == f.code
    ensures b[..HEADER_LEN + ScbTotal(f).value + 1] == Prefix(f, |b|)
  {
    hide AddressByte, CtrlByte, Low, High;
    var cursor := HEADER_LEN + ScbTotal(f).value;
    assert b[..HEADER_LEN] == HeaderBytes(f, |b|);
    assert b[HEADER_LEN..cursor] == ScbBytes(f) by {
      if f.hasScb {
        assert b[HEADER_LEN..cursor] == [b[5], b[6]] + b[7..cursor];
      }
    }
    assert b[..cursor + 1] == b[..HEADER_LEN] + b[HEADER_LEN..cursor] + [b[cursor]];
  }

  /** Whatever osdp_frame_decode accepts, osdp_frame_build reproduces byte for
      byte: the decoder accepts no second spelling of a frame. */
  lemma {:induction false} BuildDecode(b: seq<byte>, cap: nat)
    requires Decode(b).Success? && cap >= MARK_LEN + |b|
    ensures Build(Decode(b).value, cap) == Success([MARK] + b)
  {
    hide Decode, CheckBytes, Prefix, AddressByte, CtrlByte, Low, High;
    var f := Decode(b).value;
    DecodeParts(b);
    Le16Inverse(b[2], b[3]);
    PrefixFromParts(b, f);
    var cursor := HEADER_LEN + ScbTotal(f).value;
    var end := |b| - CheckLen(f.integrity);
    assert b[..end] == b[..cursor + 1] + b[cursor + 1..end - TagLen(f)] + b[end - TagLen(f)..end];
    assert b == b[..end] + b[end..];
  }

  /** `f` is a frame whose built bytes, after the marking byte, are `b`. */
  predicate Spells(f: Frame, b: seq<byte>) {
    Build(f, MARK_LEN + |b|) == Success([MARK] + b)
  }

  /** The decoder accepts exactly the frames the builder can produce. */
  lemma {:induction false} DecodeAcceptsExactlyBuilt(b: seq<byte>)
    ensures Decode(b).Success? <==> exists f :: Spells(f, b)
  {
    hide Decode, Build;
    if Decode(b).Success? {
      BuildDecode(b, MARK_LEN + |b|);
      assert Spells(Decode(b).value, b);
    }
    if f :| Spells(f, b) {
      DecodeBuild(f, MARK_LEN + |b|);
      assert ([MARK] + b)[MARK_LEN..] == b;
    }
  }

  // ---- Exact sizing ----

  /** Everything but the payload length that osdp_frame_build checks. */
  predicate Buildable(f: Frame) {
    f.address <= 0x7F && f.sequence <= 3 && ScbTotal(f).Success? && |f.mac| == TagLen(f)
  }

  /** A non-empty payload is accepted exactly up to osdp_frame_max_payload, and
      the wire length is then the overhead plus the payload. */
  lemma {:induction false} BuildFitsExactly(f: Frame, cap: nat)
    requires Buildable(f) && |f.payload| > 0
    ensures Build(f, cap).Success? <==> |f.payload| <= MaxPayload(f, cap).value
    ensures Build(f, cap).Success? ==>
              |Build(f, cap).value| == MARK_LEN + Overhead(f).value + |f.payload|
  {
    hide FrameBytes;
    if Build(f, cap).Success? {
      BuildSize(f, cap);
    }
  }

  /** A built frame fills exactly the bytes counted for it. */
  lemma {:induction false} BuildSize(f: Frame, cap: nat)
    requires Build(f, cap).Success?
    ensures Buildable(f)
    ensures |Build(f, cap).value| == MARK_LEN + Overhead(f).value + |f.payload|
    ensures |Build(f, cap).value| <= cap && |Build(f, cap).value| <= MARK_LEN + MAX_LEN
    ensures Build(f, cap).value[0] == MARK
  {
    hide FrameBytes, Prefix;
    Layout(f, BuildLength(f, cap).value);
  }

  /** An empty payload is the one size the bound does not decide: zero means
      both "only an empty frame" and "nothing at all". */
  lemma {:induction false} MaxPayloadZeroIsAmbiguous(f: Frame)
    requires Buildable(f) && f.payload == [] && Overhead(f).value <= MAX_LEN
    ensures var only := Overhead(f).value;
            && MaxPayload(f, MARK_LEN + only) == Success(0) && Build(f, MARK_LEN + only).Success?
            && MaxPayload(f, only) == Success(0) && Build(f, only) == Failure(BufferTooSmall)
  {
    hide FrameBytes;
  }

  // ---- The building method ----

  /** memcpy of `s` behind the bytes already written. */
  method Append(buf: array<byte>, at: nat, s: seq<byte>) returns (end: nat)
    requires at + |s| <= buf.Length
    modifies buf
    ensures end == at + |s|
    ensures buf[..end] == old(buf[..at]) + s
    ensures forall k :: end <= k < buf.Length ==> buf[k] == old(buf[k])
  {
    for i := 0 to |s|
      invariant buf[..at + i] == old(buf[..at]) + s[..i]
      invariant forall k :: at + i <= k < buf.Length ==> buf[k] == old(buf[k])
    {
      buf[at + i] := s[i];
      assert buf[..at + i + 1] == buf[..at + i] + [s[i]];
    }
    end := at + |s|;
  }

  /** The payload step: `inPlace` says the bytes already lie at `at`. */
  method AppendPayload(buf: array<byte>, at: nat, s: seq<byte>, inPlace: bool) returns (end: nat)
    requires at + |s| <= buf.Length
    requires inPlace ==> forall k :: 0 <= k < |s| ==> buf[at + k] == s[k]
    modifies buf
    ensures end == at + |s|
    ensures buf[..end] == old(buf[..at]) + s
    ensures forall k :: end <= k < buf.Length ==> buf[k] == old(buf[k])
  {
    if inPlace {
      end := at + |s|;
      assert buf[..end] == buf[..at] + s;
    } else {
      end := Append(buf, at, s);
    }
  }

  lemma {:induction false} BuildPieces(f: Frame, cap: nat)
    requires Build(f, cap).Success?
    ensures var total := BuildLength(f, cap).value;
            var covered := Covered(f, total);
            && |[MARK] + Prefix(f, total)| == PayloadOffset(f).value
            && Build(f, cap).value == [MARK] + Prefix(f, total) + f.payload + f.mac + CheckBytes(f.integrity, covered)
            && |Build(f, cap).value| == MARK_LEN + total <= cap
            && ([MARK] + Prefix(f, total) + f.payload + f.mac)[MARK_LEN..] == covered
  {
    hide CheckBytes, Prefix;
    PrefixShape(f, BuildLength(f, cap).value);
  }

  /** The writing half of osdp_frame_build, once the template is accepted. */
  method WriteFrame(f: Frame, inPlace: bool, pre: seq<byte>, buf: array<byte>) returns (end: nat)
    requires |pre| >= MARK_LEN && |pre| + |f.payload| + |f.mac| + CheckLen(f.integrity) <= buf.Length
    requires inPlace ==> forall k :: 0 <= k < |f.payload| ==> buf[|pre| + k] == f.payload[k]
    modifies buf
    ensures var body := pre + f.payload + f.mac;
            && end == |body| + CheckLen(f.integrity)
            && buf[..end] == body + CheckBytes(f.integrity, body[MARK_LEN..])
    ensures forall k :: end <= k < buf.Length ==> buf[k] == old(buf[k])
  {
    hide CheckBytes;
    end := Append(buf, 0, pre);
    assert buf[..end] == pre;
    end := AppendPayload(buf, end, f.payload, inPlace);
    end := Append(buf, end, f.mac);
    assert buf[MARK_LEN..end] == buf[..end][MARK_LEN..];
    end := Append(buf, end, CheckBytes(f.integrity, buf[MARK_LEN..end]));
  }

  /** osdp_frame_build. `inPlace` says that the template's payload pointer
      already is its place in `buf`, in which case those bytes are not copied.
      A refused frame leaves `buf` untouched. */
  method BuildInto(f: Frame, inPlace: bool, buf: array<byte>) returns (r: Result<nat>)
    requires inPlace && PayloadOffset(f).Success? ==>
               var off := PayloadOffset(f).value;
               off + |f.payload| <= buf.Length && buf[off..off + |f.payload|] == f.payload
    modifies buf
    ensures match Build(f, buf.Length)
            case Success(wire) =>
              r == Success(|wire|) && |wire| <= buf.Length && buf[..|wire|] == wire
              && buf[|wire|..] == old(buf[|wire|..])
            case Failure(e) => r == Failure(e) && buf[..] == old(buf[..])
  {
    hide CheckBytes, Prefix, Covered, FrameBytes;
    var length := BuildLength(f, buf.Length);
    if length.Failure? {
      return Failure(length.error);
    }
    BuildPieces(f, buf.Length);
    var pre := [MARK] + Prefix(f, length.value);
    if inPlace {
      ghost var staged := buf[|pre|..|pre| + |f.payload|];
      assert forall k :: 0 <= k < |f.payload| ==> staged[k] == buf[|pre| + k];
    }
    var end := WriteFrame(f, inPlace, pre, buf);
    r := Success(end);
  }

  // ---- What the integrity bytes detect ----

  lemma {:induction false} SumAppend(data: seq<byte>, b: byte)
    ensures Sum(data + [b]) == (Sum(data) + b) % 256
  {
    assert (data + [b])[..|data|] == data;
  }

  /** The defining property of the checksum: message and checksum sum to zero. */
  lemma {:induction false} ChecksumCancels(data: seq<byte>)
    ensures Sum(data + [ChecksumByte(data)]) == 0
  {
    SumAppend(data, ChecksumByte(data));
  }

  /** An accepted CRC frame carries the CRC of everything before it. */
  lemma {:induction false} AcceptedCrc(b: seq<byte>)
    requires Decode(b).Success? && CrcBit(b[4])
    ensures |b| >= HEADER_LEN + 3 && b[|b| - 2..] == Crc16.CheckBytes(Crc16.Crc(b[..|b| - 2]))
    ensures b[0] == SOM && Le16(b[2], b[3]) == |b|
  {
    hide Le16, Crc16.Crc;
  }

  lemma {:induction false} PairChangesCrc(b: seq<byte>, c: seq<byte>, i: nat)
    requires |c| == |b| && c != b && i + 2 <= |b|
    requires c[..i] == b[..i] && c[i + 2..] == b[i + 2..]
    ensures Crc16.Crc(b) != Crc16.Crc(c)
  {
    hide Crc16.Crc;
    assert b == b[..i] + [b[i], b[i + 1]] + b[i + 2..];
    assert c == b[..i] + [c[i], c[i + 1]] + b[i + 2..];
    Crc16.DetectsAdjacentChange(b[..i], b[i], b[i + 1], c[i], c[i + 1], b[i + 2..]);
  }

  /** Any change to one byte, or to two adjacent bytes on the same side of the
      CRC, makes a CRC frame unacceptable, provided CTRL (which says that there
      is a CRC at all) is not among them. */
  lemma {:induction false} DecodeDetects(b: seq<byte>, c: seq<byte>, i: nat)
    requires Decode(b).Success? && CrcBit(b[4])
    requires |c| == |b| && c != b && i + 2 <= |b| && i != |b| - 3
    requires c[..i] == b[..i] && c[i + 2..] == b[i + 2..]
    requires c[4] == b[4]
    ensures Decode(c).Failure?
  {
    hide Decode, Crc16.Crc, Crc16.CheckBytes;
    if Decode(c).Success? {
      AcceptedCrc(b);
      AcceptedCrc(c);
      var end := |b| - 2;
      assert b == b[..end] + b[end..] && c == c[..end] + c[end..];
      if i != end {
        var x, y := b[..end], c[..end];
        assert b[end..] == b[i + 2..][end - (i + 2)..] && c[end..] == c[i + 2..][end - (i + 2)..];
        assert x[..i] == b[..i] && y[..i] == c[..i];
        assert x[i + 2..] == b[i + 2..][..end - (i + 2)] && y[i + 2..] == c[i + 2..][..end - (i + 2)];
        PairChangesCrc(x, y, i);
        Crc16.CheckBytesInjective(Crc16.Crc(x), Crc16.Crc(y));
      }
    }
  }

  /** In particular every single-byte change outside CTRL is detected. */
  lemma {:induction false} DecodeDetectsByte(b: seq<byte>, i: nat, v: byte)
    requires Decode(b).Success? && CrcBit(b[4])
    requires i < |b| && i != 4 && v != b[i]
    ensures Decode(b[i := v]).Failure?
  {
    hide Decode;
    AcceptedCrc(b);
    var c := b[i := v];
    var k := if i == 0 || (i != |b| - 3 && i + 1 < |b|) then i else i - 1;
    assert c[i] != b[i];
    assert c[..k] == b[..k] && c[k + 2..] == b[k + 2..];
    DecodeDetects(b, c, k);
  }

  /** The pair of the last covered byte and the first check byte is the
      exception: every CRC frame has a neighbour there that decodes too. */
  lemma {:induction false} BoundaryPairEscapes(b: seq<byte>)
    requires Decode(b).Success? && CrcBit(b[4])
    ensures var end := |b| - 2;
            var c := b[end - 1 := Xor(b[end - 1], 0x89)][end := Xor(b[end], 0xA1)];
            c != b && Decode(c).Success?
  {
    hide Decode, Crc16.Crc, Crc16.CheckBytes, Crc16.Feed, Xor;
    AcceptedCrc(b);
    var end := |b| - 2;
    var d, lo := b[end - 1], b[end];
    var c := b[end - 1 := Xor(d, 0x89)][end := Xor(lo, 0xA1)];
    Crc16.ByteNeverFixed(d);
    var head := b[..end - 1];
    assert b[..end] == head + [d] && c[..end] == head + [Xor(d, 0x89)];
    Crc16.CrcSnoc(head, d);
    Crc16.CrcSnoc(head, Xor(d, 0x89));
    Crc16.LastByteEscape(Crc16.Crc(head), d);
    Crc16.CheckBytesEscape(Crc16.Crc(b[..end]));
    assert c[end..] == [Xor(lo, 0xA1), b[end + 1]];
    assert b[end..] == [lo, b[end + 1]];
    DecodeSameStructure(b, c);
  }

  /** Replacing the byte before the CRC and a matching CRC keeps a frame valid. */
  lemma {:induction false} DecodeSameStructure(b: seq<byte>, c: seq<byte>)
    requires Decode(b).Success? && CrcBit(b[4])
    requires |c| == |b| && c[..|b| - 3] == b[..|b| - 3]
    requires c[|b| - 2..] == Crc16.CheckBytes(Crc16.Crc(c[..|b| - 2]))
    ensures Decode(c).Success?
  {
    hide Crc16.Crc, Crc16.CheckBytes;
    AcceptedCrc(b);
    assert forall k :: 0 <= k < |b| - 3 ==> c[k] == c[..|b| - 3][k] == b[k];
  }
}
