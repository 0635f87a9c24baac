/** CRC-16 (SIA OSDP v2.2.2 Annex C): the table-driven loop of crc16.c against
    the bit-serial 0x1021 shift register, and what the check detects. */
module Crc16 {
  import opened Bytes

  /** OSDP_CRC16_INIT. */
  const INIT: bv16 := 0x1D0F

  // ---- The bit-serial register ----

  /** One shift of the register; the polynomial is subtracted when the bit
      leaving at the top is one (written without a branch). */
  function ShiftBit(r: bv16): bv16 {
    (r << 1) ^ (0x1021 * (r >> 15))
  }

  function ShiftTwice(r: bv16): bv16 {
    ShiftBit(ShiftBit(r))
  }

  function ShiftNibble(r: bv16): bv16 {
    ShiftTwice(ShiftTwice(r))
  }

  function ShiftByte(r: bv16): bv16 {
    ShiftNibble(ShiftNibble(r))
  }

  /** Register addition, named so that proofs can treat it algebraically. */
  function Add(a: bv16, b: bv16): bv16 {
    a ^ b
  }

  /** A byte at the bottom and at the top of a register. */
  function Bottom(v: bv8): bv16 {
    v as bv16
  }

  function Top(v: bv8): bv16 {
    ShiftOut(Bottom(v))
  }

  function ShiftOut(r: bv16): bv16 {
    r << 8
  }

  function HighByte(r: bv16): bv16 {
    r >> 8
  }

  function LowByte(r: bv16): bv16 {
    r & 0xFF
  }

  /** Feed one message byte, most significant bit first, at the top. */
  function Feed(r: bv16, b: byte): bv16 {
    ShiftByte(Add(r, Top(Bits(b))))
  }

  /** The register after a whole message. */
  function Register(r: bv16, data: seq<byte>): bv16 {
    if data == [] then r else Feed(Register(r, data[..|data| - 1]), data[|data| - 1])
  }

  function Crc(data: seq<byte>): bv16 {
    Register(INIT, data)
  }

  // ---- Algebra of the register ----

  lemma {:induction false} AddZero(a: bv16)
    ensures Add(a, 0) == a
  {}

  lemma {:induction false} AddCancels(a: bv16, b: bv16, c: bv16)
    requires Add(a, c) == Add(b, c)
    ensures a == b
  {}

  lemma {:induction false} XorShifts(a: bv16, b: bv16)
    ensures ShiftBit(a ^ b) == ShiftBit(a) ^ ShiftBit(b)
  {}

  lemma {:induction false} ShiftBitLinear(a: bv16, b: bv16)
    ensures ShiftBit(Add(a, b)) == Add(ShiftBit(a), ShiftBit(b))
  {
    hide ShiftBit;
    XorShifts(a, b);
  }

  lemma {:induction false} ShiftTwiceLinear(a: bv16, b: bv16)
    ensures ShiftTwice(Add(a, b)) == Add(ShiftTwice(a), ShiftTwice(b))
  {
    hide ShiftBit, Add;
    ShiftBitLinear(a, b);
    ShiftBitLinear(ShiftBit(a), ShiftBit(b));
  }

  lemma {:induction false} ShiftNibbleLinear(a: bv16, b: bv16)
    ensures ShiftNibble(Add(a, b)) == Add(ShiftNibble(a), ShiftNibble(b))
  {
    hide ShiftTwice, Add;
    ShiftTwiceLinear(a, b);
    ShiftTwiceLinear(ShiftTwice(a), ShiftTwice(b));
  }

  lemma {:induction false} ShiftByteLinear(a: bv16, b: bv16)
    ensures ShiftByte(Add(a, b)) == Add(ShiftByte(a), ShiftByte(b))
  {
    hide ShiftNibble, Add;
    ShiftNibbleLinear(a, b);
    ShiftNibbleLinear(ShiftNibble(a), ShiftNibble(b));
  }

  lemma {:induction false} ShiftBitInjective(a: bv16, b: bv16)
    requires ShiftBit(a) == ShiftBit(b)
    ensures a == b
  {}

  lemma {:induction false} ShiftNibbleInjective(a: bv16, b: bv16)
    requires ShiftNibble(a) == ShiftNibble(b)
    ensures a == b
  {
    hide ShiftBit;
    var a1, b1 := ShiftBit(a), ShiftBit(b);
    var a2, b2 := ShiftBit(a1), ShiftBit(b1);
    ShiftBitInjective(ShiftBit(a2), ShiftBit(b2));
    ShiftBitInjective(a2, b2);
    ShiftBitInjective(a1, b1);
    ShiftBitInjective(a, b);
  }

  lemma {:induction false} ShiftByteInjective(a: bv16, b: bv16)
    requires ShiftByte(a) == ShiftByte(b)
    ensures a == b
  {
    hide ShiftNibble;
    ShiftNibbleInjective(ShiftNibble(a), ShiftNibble(b));
    ShiftNibbleInjective(a, b);
  }

  lemma {:induction false} ShiftByteLow(r: bv16)
    requires r < 256
    ensures ShiftByte(r) == r << 8
  {}

  /** Eight shifts move a byte from the bottom of the register to the top. */
  lemma {:induction false} BottomToTop(v: bv8)
    ensures ShiftByte(Bottom(v)) == Top(v)
  {
    hide ShiftByte;
    ShiftByteLow(Bottom(v));
  }

  // ---- The 256-entry table ----

  /** osdp_crc16_table, in the source's rows of eight. */
  function TableRow(r: bv16): (s: seq<bv16>)
    requires r < 32
    ensures |s| == 8
  {
    if r == 0 then [0x0000, 0x1021, 0x2042, 0x3063, 0x4084, 0x50A5, 0x60C6, 0x70E7]
    else if r == 1 then [0x8108, 0x9129, 0xA14A, 0xB16B, 0xC18C, 0xD1AD, 0xE1CE, 0xF1EF]
    else if r == 2 then [0x1231, 0x0210, 0x3273, 0x2252, 0x52B5, 0x4294, 0x72F7, 0x62D6]
    else if r == 3 then [0x9339, 0x8318, 0xB37B, 0xA35A, 0xD3BD, 0xC39C, 0xF3FF, 0xE3DE]
    else if r == 4 then [0x2462, 0x3443, 0x0420, 0x1401, 0x64E6, 0x74C7, 0x44A4, 0x5485]
    else if r == 5 then [0xA56A, 0xB54B, 0x8528, 0x9509, 0xE5EE, 0xF5CF, 0xC5AC, 0xD58D]
    else if r == 6 then [0x3653, 0x2672, 0x1611, 0x0630, 0x76D7, 0x66F6, 0x5695, 0x46B4]
    else if r == 7 then [0xB75B, 0xA77A, 0x9719, 0x8738, 0xF7DF, 0xE7FE, 0xD79D, 0xC7BC]
    else if r == 8 then [0x48C4, 0x58E5, 0x6886, 0x78A7, 0x0840, 0x1861, 0x2802, 0x3823]
    else if r == 9 then [0xC9CC, 0xD9ED, 0xE98E, 0xF9AF, 0x8948, 0x9969, 0xA90A, 0xB92B]
    else if r == 10 then [0x5AF5, 0x4AD4, 0x7AB7, 0x6A96, 0x1A71, 0x0A50, 0x3A33, 0x2A12]
    else if r == 11 then [0xDBFD, 0xCBDC, 0xFBBF, 0xEB9E, 0x9B79, 0x8B58, 0xBB3B, 0xAB1A]
    else if r == 12 then [0x6CA6, 0x7C87, 0x4CE4, 0x5CC5, 0x2C22, 0x3C03, 0x0C60, 0x1C41]
    else if r == 13 then [0xEDAE, 0xFD8F, 0xCDEC, 0xDDCD, 0xAD2A, 0xBD0B, 0x8D68, 0x9D49]
    else if r == 14 then [0x7E97, 0x6EB6, 0x5ED5, 0x4EF4, 0x3E13, 0x2E32, 0x1E51, 0x0E70]
    else if r == 15 then [0xFF9F, 0xEFBE, 0xDFDD, 0xCFFC, 0xBF1B, 0xAF3A, 0x9F59, 0x8F78]
    else if r == 16 then [0x9188, 0x81A9, 0xB1CA, 0xA1EB, 0xD10C, 0xC12D, 0xF14E, 0xE16F]
    else if r == 17 then [0x1080, 0x00A1, 0x30C2, 0x20E3, 0x5004, 0x4025, 0x7046, 0x6067]
    else if r == 18 then [0x83B9, 0x9398, 0xA3FB, 0xB3DA, 0xC33D, 0xD31C, 0xE37F, 0xF35E]
    else if r == 19 then [0x02B1, 0x1290, 0x22F3, 0x32D2, 0x4235, 0x5214, 0x6277, 0x7256]
    else if r == 20 then [0xB5EA, 0xA5CB, 0x95A8, 0x8589, 0xF56E, 0xE54F, 0xD52C, 0xC50D]
    else if r == 21 then [0x34E2, 0x24C3, 0x14A0, 0x0481, 0x7466, 0x6447, 0x5424, 0x4405]
    else if r == 22 then [0xA7DB, 0xB7FA, 0x8799, 0x97B8, 0xE75F, 0xF77E, 0xC71D, 0xD73C]
    else if r == 23 then [0x26D3, 0x36F2, 0x0691, 0x16B0, 0x6657, 0x7676, 0x4615, 0x5634]
    else if r == 24 then [0xD94C, 0xC96D, 0xF90E, 0xE92F, 0x99C8, 0x89E9, 0xB98A, 0xA9AB]
    else if r == 25 then [0x5844, 0x4865, 0x7806, 0x6827, 0x18C0, 0x08E1, 0x3882, 0x28A3]
    else if r == 26 then [0xCB7D, 0xDB5C, 0xEB3F, 0xFB1E, 0x8BF9, 0x9BD8, 0xABBB, 0xBB9A]
    else if r == 27 then [0x4A75, 0x5A54, 0x6A37, 0x7A16, 0x0AF1, 0x1AD0, 0x2AB3, 0x3A92]
    else if r == 28 then [0xFD2E, 0xED0F, 0xDD6C, 0xCD4D, 0xBDAA, 0xAD8B, 0x9DE8, 0x8DC9]
    else if r == 29 then [0x7C26, 0x6C07, 0x5C64, 0x4C45, 0x3CA2, 0x2C83, 0x1CE0, 0x0CC1]
    else if r == 30 then [0xEF1F, 0xFF3E, 0xCF5D, 0xDF7C, 0xAF9B, 0xBFBA, 0x8FD9, 0x9FF8]
    else [0x6E17, 0x7E36, 0x4E55, 0x5E74, 0x2E93, 0x3EB2, 0x0ED1, 0x1EF0]
  }

  function Table(index: bv16): bv16
    requires index < 256
  {
    TableRow(index >> 3)[(index & 7) as int]
  }

  /** What row `r` of the table must contain. */
  function ShiftedRow(r: bv16): (s: seq<bv16>)
    requires r < 32
    ensures |s| == 8
  {
    var b := r << 11;
    [ShiftByte(b), ShiftByte(b ^ 0x100), ShiftByte(b ^ 0x200), ShiftByte(b ^ 0x300),
     ShiftByte(b ^ 0x400), ShiftByte(b ^ 0x500), ShiftByte(b ^ 0x600), ShiftByte(b ^ 0x700)]
  }

  lemma {:induction false} LowRowsShifted(r: bv16)
    requires r < 16
    ensures TableRow(r) == ShiftedRow(r)
  {
    if r == 0 || r == 1 || r == 2 || r == 3 || r == 4 || r == 5 || r == 6 || r == 7 { return; }
  }

  lemma {:induction false} MiddleRowsShifted(r: bv16)
    requires 16 <= r < 24
    ensures TableRow(r) == ShiftedRow(r)
  {
    if r == 16 || r == 17 || r == 18 || r == 19 { return; }
  }

  lemma {:induction false} HighRowsShifted(r: bv16)
    requires 24 <= r < 32
    ensures TableRow(r) == ShiftedRow(r)
  {
    if r == 24 || r == 25 || r == 26 || r == 27 { return; }
  }

  lemma {:induction false} TableRowIsShifted(r: bv16)
    requires r < 32
    ensures TableRow(r) == ShiftedRow(r)
  {
    hide TableRow, ShiftedRow;
    if r < 16 {
      LowRowsShifted(r);
    } else if r < 24 {
      MiddleRowsShifted(r);
    } else {
      HighRowsShifted(r);
    }
  }

  lemma {:induction false} ShiftedRowAt(r: bv16, k: bv16)
    requires r < 32 && k < 8
    ensures ShiftedRow(r)[k as int] == ShiftByte((r << 11) ^ (k << 8))
  {}

  lemma {:induction false} SplitIndex(i: bv16)
    requires i < 256
    ensures ((i >> 3) << 11) ^ ((i & 7) << 8) == i << 8
    ensures i >> 3 < 32 && i & 7 < 8
  {}

  /** Every one of the 256 entries is eight shifts of its index. */
  lemma {:induction false} TableIsBitSerial(i: bv16)
    requires i < 256
    ensures Table(i) == ShiftByte(ShiftOut(i))
  {
    hide ShiftByte, TableRow, ShiftedRow;
    SplitIndex(i);
    TableRowIsShifted(i >> 3);
    ShiftedRowAt(i >> 3, i & 7);
  }

  /** One round of the loop in crc16.c. */
  function TableStep(r: bv16, b: byte): bv16 {
    HighByteSmall(r, Bits(b));
    Add(ShiftOut(r), Table(Add(HighByte(r), Bottom(Bits(b)))))
  }

  lemma {:induction false} HighByteSmall(r: bv16, v: bv8)
    ensures Add(HighByte(r), Bottom(v)) < 256
  {}

  lemma {:induction false} ShiftOutLinear(a: bv16, b: bv16)
    ensures ShiftOut(Add(a, b)) == Add(ShiftOut(a), ShiftOut(b))
  {}

  lemma {:induction false} AddAssociates(a: bv16, b: bv16, c: bv16)
    ensures Add(Add(a, b), c) == Add(a, Add(b, c))
  {}

  lemma {:induction false} Halves(r: bv16)
    ensures Add(LowByte(r), ShiftOut(HighByte(r))) == r
  {}

  lemma {:induction false} LowByteShifts(r: bv16)
    ensures ShiftByte(LowByte(r)) == ShiftOut(r)
  {
    hide ShiftByte;
    ShiftByteLow(r & 0xFF);
  }

  /** A table round equals eight shifts of the register. */
  lemma {:induction false} TableStepIsFeed(r: bv16, b: byte)
    ensures TableStep(r, b) == Feed(r, b)
  {
    hide Table, ShiftByte, Add, Bottom, Bits, HighByte, LowByte, ShiftOut;
    var hi, w := HighByte(r), Bottom(Bits(b));
    HighByteSmall(r, Bits(b));
    TableIsBitSerial(Add(hi, w));
    LowByteShifts(r);
    ShiftByteLinear(LowByte(r), ShiftOut(Add(hi, w)));
    ShiftOutLinear(hi, w);
    AddAssociates(LowByte(r), ShiftOut(hi), ShiftOut(w));
    Halves(r);
  }

  /** osdp_crc16_update: one table look-up per byte. */
  method Update(crc: bv16, data: seq<byte>) returns (r: bv16)
    ensures r == Register(crc, data)
  {
    hide TableStep, Feed;
    r := crc;
    for i := 0 to |data|
      invariant r == Register(crc, data[..i])
    {
      TableStepIsFeed(r, data[i]);
      assert data[..i + 1][..i] == data[..i];
      r := TableStep(r, data[i]);
    }
    assert data[..|data|] == data;
  }

  // ---- Composition ----

  /** Updates compose over concatenation: the streaming use is sound. */
  lemma {:induction false} RegisterAppend(r: bv16, a: seq<byte>, b: seq<byte>)
    ensures Register(r, a + b) == Register(Register(r, a), b)
    decreases |b|
  {
    hide Feed;
    if b == [] {
      assert a + b == a;
    } else {
      var n := |b| - 1;
      assert (a + b)[..|a + b| - 1] == a + b[..n];
      RegisterAppend(r, a, b[..n]);
    }
  }

  lemma {:induction false} RegisterSnoc(r: bv16, data: seq<byte>, b: byte)
    ensures Register(r, data + [b]) == Feed(Register(r, data), b)
  {
    hide Feed;
    assert (data + [b])[..|data|] == data;
  }

  /** Shift message bits in at the bottom instead, as the annex's
      shift-and-XOR formulation does. */
  function Augmented(r: bv16, data: seq<byte>): bv16 {
    if data == [] then r else
      Add(ShiftByte(Augmented(r, data[..|data| - 1])), Bottom(Bits(data[|data| - 1])))
  }

  lemma {:induction false} AugmentedSnoc(r: bv16, data: seq<byte>, b: byte)
    ensures Augmented(r, data + [b]) == Add(ShiftByte(Augmented(r, data)), Bottom(Bits(b)))
  {
    hide ShiftByte, Add, Bottom;
    assert (data + [b])[..|data|] == data;
  }

  lemma {:induction false} AugmentedInvariant(r: bv16, data: seq<byte>)
    ensures Register(ShiftByte(ShiftByte(r)), data) == ShiftByte(ShiftByte(Augmented(r, data)))
    decreases |data|
  {
    hide ShiftByte, Add, Bottom, Top;
    if data != [] {
      var n := |data| - 1;
      AugmentedInvariant(r, data[..n]);
      var a, b := Augmented(r, data[..n]), data[n];
      BottomToTop(Bits(b));
      ShiftByteLinear(ShiftByte(a), Bottom(Bits(b)));
      ShiftByteLinear(ShiftByte(ShiftByte(a)), Top(Bits(b)));
    }
  }

  lemma {:induction false} InitIsAugmented()
    ensures ShiftByte(ShiftByte(0xFFFF)) == INIT && Bottom(Bits(0)) == 0
  {}

  /** The initial value 0x1D0F is 0xFFFF augmented with sixteen zero bits, and
      with it the CRC equals the augmented formulation started at 0xFFFF. */
  lemma {:induction false} CrcIsAugmented(data: seq<byte>)
    ensures Crc(data) == Augmented(0xFFFF, data + [0, 0])
  {
    hide ShiftByte, Add, Bottom, Top, Register, Augmented;
    InitIsAugmented();
    AugmentedInvariant(0xFFFF, data);
    assert data + [0, 0] == data + [0] + [0];
    AugmentedSnoc(0xFFFF, data, 0);
    AugmentedSnoc(0xFFFF, data + [0], 0);
    var x := ShiftByte(Augmented(0xFFFF, data));
    AddZero(x);
    AddZero(ShiftByte(x));
  }

  // ---- Error detection ----

  lemma {:induction false} FeedInjective(r: bv16, s: bv16, b: byte)
    requires Feed(r, b) == Feed(s, b)
    ensures r == s
  {
    hide ShiftByte, Add, Top;
    ShiftByteInjective(Add(r, Top(Bits(b))), Add(s, Top(Bits(b))));
    AddCancels(r, s, Top(Bits(b)));
  }

  /** Equal tails keep different registers different. */
  lemma {:induction false} RegisterInjective(r: bv16, s: bv16, data: seq<byte>)
    requires Register(r, data) == Register(s, data)
    ensures r == s
    decreases |data|
  {
    hide Feed;
    if data != [] {
      var n := |data| - 1;
      FeedInjective(Register(r, data[..n]), Register(s, data[..n]), data[n]);
      RegisterInjective(r, s, data[..n]);
    }
  }

  /** Feeding two bytes is one sixteen-bit shift of the register plus a word. */
  lemma {:induction false} FeedTwice(r: bv16, a: byte, b: byte)
    ensures Feed(Feed(r, a), b) == ShiftByte(ShiftByte(Add(Add(r, Top(Bits(a))), Bottom(Bits(b)))))
  {
    hide ShiftByte, Add, Bottom, Top;
    BottomToTop(Bits(b));
    ShiftByteLinear(Add(r, Top(Bits(a))), Bottom(Bits(b)));
  }

  lemma {:induction false} WordsDiffer(r: bv16, a: bv8, b: bv8, c: bv8, d: bv8)
    requires Add(Add(r, Top(a)), Bottom(b)) == Add(Add(r, Top(c)), Bottom(d))
    ensures a == c && b == d
  {}

  /** Two message bytes determine, and are determined by, the register. */
  lemma {:induction false} TwoBytesInjective(r: bv16, a: byte, b: byte, c: byte, d: byte)
    requires Feed(Feed(r, a), b) == Feed(Feed(r, c), d)
    ensures a == c && b == d
  {
    hide *;
    FeedTwice(r, a, b);
    FeedTwice(r, c, d);
    var x, y := Add(Add(r, Top(Bits(a))), Bottom(Bits(b))), Add(Add(r, Top(Bits(c))), Bottom(Bits(d)));
    ShiftByteInjective(ShiftByte(x), ShiftByte(y));
    ShiftByteInjective(x, y);
    WordsDiffer(r, Bits(a), Bits(b), Bits(c), Bits(d));
    BitsInjective(a, c);
    BitsInjective(b, d);
  }

  lemma {:induction false} CrcOfParts(head: seq<byte>, mid: seq<byte>, tail: seq<byte>)
    ensures Crc(head + mid + tail) == Register(Register(Crc(head), mid), tail)
  {
    hide Register;
    RegisterAppend(INIT, head, mid);
    RegisterAppend(INIT, head + mid, tail);
  }

  lemma {:induction false} RegisterPair(r: bv16, a: byte, b: byte)
    ensures Register(r, [a]) == Feed(r, a)
    ensures Register(r, [a, b]) == Feed(Feed(r, a), b)
  {
    hide Feed;
    assert [a] == [] + [a] && [a, b] == [a] + [b];
    RegisterSnoc(r, [], a);
    RegisterSnoc(r, [a], b);
  }

  /** Any change confined to two adjacent bytes changes the CRC. */
  lemma {:induction false} DetectsAdjacentChange(head: seq<byte>, a: byte, b: byte, c: byte, d: byte, tail: seq<byte>)
    requires a != c || b != d
    ensures Crc(head + [a, b] + tail) != Crc(head + [c, d] + tail)
  {
    hide Feed, Register, Crc;
    var r := Crc(head);
    CrcOfParts(head, [a, b], tail);
    CrcOfParts(head, [c, d], tail);
    RegisterPair(r, a, b);
    RegisterPair(r, c, d);
    var x, y := Feed(Feed(r, a), b), Feed(Feed(r, c), d);
    if Register(x, tail) == Register(y, tail) {
      RegisterInjective(x, y, tail);
      TwoBytesInjective(r, a, b, c, d);
    }
  }

  // ---- The two check bytes, low byte first ----

  function CheckBytes(crc: bv16): (s: seq<byte>)
    ensures |s| == 2
  {
    [(crc & 0xFF) as int, (crc >> 8) as int]
  }

  lemma {:induction false} HalvesDetermine(x: bv16, y: bv16)
    requires (x & 0xFF) as bv8 == (y & 0xFF) as bv8 && (x >> 8) as bv8 == (y >> 8) as bv8
    ensures x == y
  {}

  lemma {:induction false} ByteOfWord(x: bv16)
    requires x < 256
    ensures (x as bv8) as int == x as int
  {}

  lemma {:induction false} CheckBytesInjective(x: bv16, y: bv16)
    requires CheckBytes(x) == CheckBytes(y)
    ensures x == y
  {
    assert CheckBytes(x)[0] == CheckBytes(y)[0] && CheckBytes(x)[1] == CheckBytes(y)[1];
    ByteOfWord(x & 0xFF);
    ByteOfWord(y & 0xFF);
    ByteOfWord(x >> 8);
    ByteOfWord(y >> 8);
    SameBits((x & 0xFF) as bv8, (y & 0xFF) as bv8);
    SameBits((x >> 8) as bv8, (y >> 8) as bv8);
    HalvesDetermine(x, y);
  }

  // ---- The one adjacent pair that is not protected ----

  lemma {:induction false} EscapeConstants()
    ensures ShiftByte(Top(0x89)) == 0x00A1
    ensures forall v: bv8 :: Top(v ^ 0x89) == Add(Top(v), Top(0x89))
  {}

  lemma {:induction false} BitsOfXor(a: byte, b: byte)
    ensures Bits(Xor(a, b)) == Bits(a) ^ Bits(b)
  {
    BitsOfInt(Bits(a) ^ Bits(b));
  }

  lemma {:induction false} LiteralBits()
    ensures Bits(0x89) == 0x89 && Bits(0xA1) == 0xA1
  {
    SameBits(Bits(0x89), 0x89);
    SameBits(Bits(0xA1), 0xA1);
  }

  lemma {:induction false} CheckBytesOfSum(x: bv16)
    ensures (Add(x, 0x00A1) & 0xFF) as bv8 == ((x & 0xFF) as bv8) ^ 0xA1
    ensures Add(x, 0x00A1) >> 8 == x >> 8
  {}

  lemma {:induction false} ByteNeverFixed(d: byte)
    ensures Xor(d, 0x89) != d
  {
    hide Xor;
    LiteralBits();
    BitsOfXor(d, 0x89);
    XorMoves(Bits(d));
  }

  lemma {:induction false} XorMoves(v: bv8)
    ensures v ^ 0x89 != v
  {}

  lemma {:induction false} CrcSnoc(data: seq<byte>, b: byte)
    ensures Crc(data + [b]) == Feed(Crc(data), b)
  {
    hide Feed;
    RegisterSnoc(INIT, data, b);
  }

  /** Adding 0x89 to the last covered byte adds 0x00A1 to the CRC, so only the
      low check byte, the one sent first, changes. */
  lemma {:induction false} LastByteEscape(r: bv16, d: byte)
    ensures Feed(r, Xor(d, 0x89)) == Add(Feed(r, d), 0x00A1)
  {
    hide ShiftByte, Add, Top, Xor, Bits;
    EscapeConstants();
    BitsOfXor(d, 0x89);
    LiteralBits();
    var t := Top(Bits(d));
    assert Top(Bits(Xor(d, 0x89))) == Add(t, Top(0x89));
    AddAssociates(r, t, Top(0x89));
    ShiftByteLinear(Add(r, t), Top(0x89));
  }

  lemma {:induction false} CheckBytesEscape(x: bv16)
    ensures CheckBytes(Add(x, 0x00A1)) == [Xor(CheckBytes(x)[0], 0xA1), CheckBytes(x)[1]]
  {
    hide Add;
    LiteralBits();
    CheckBytesOfSum(x);
    ByteOfWord(x & 0xFF);
    ByteOfWord(Add(x, 0x00A1) & 0xFF);
    SameBits(Bits(CheckBytes(x)[0]), (x & 0xFF) as bv8);
  }
}
