/** Bytes, little-endian packing, XOR and the status codes every layer returns. */
module Bytes {

  type byte = x: int | 0 <= x < 256

  const U16 := 0x1_0000
  const U32 := 0x1_0000_0000

  /** uint32_t: counters and the millisecond clock. */
  type u32 = n: nat | n < U32

  /** The failure codes of osdp_types.h; OSDP_OK is `Success`. */
  datatype Status =
    | InvalidArg
    | BufferTooSmall
    | Truncated
    | BadSom
    | BadLength
    | BadCtrl
    | BadCrc
    | BadChecksum
    | BadPayload
    | NotSupported
    | Busy

  datatype Result<+T> = Success(value: T) | Failure(error: Status) {
    predicate IsFailure() {
      Failure?
    }

    function PropagateFailure<U>(): Result<U>
      requires Failure?
    {
      Failure(error)
    }

    function Extract(): T
      requires Success?
    {
      value
    }
  }

  datatype Option<+T> = None | Some(value: T)

  function Min(a: nat, b: nat): nat {
    if a < b then a else b
  }

  // ---- 16-bit little-endian packing (core/src/shared/pack.h) ----

  function Low(n: nat): byte {
    n % 256
  }

  function High(n: nat): byte {
    if n < U16 then n / 256 else n / 256 % 256
  }

  /** lo + 256 * hi, counted up so that proofs about frames do not have to reason
      about the product. */
  function Le16(lo: byte, hi: byte): nat
    decreases hi
  {
    if hi == 0 then lo else 256 + Le16(lo, hi - 1)
  }

  lemma {:induction false} Le16Value(lo: byte, hi: byte)
    ensures Le16(lo, hi) == lo + 256 * hi < U16
    decreases hi
  {
    if hi > 0 {
      Le16Value(lo, hi - 1);
    }
  }

  lemma Le16RoundTrip(n: nat)
    requires n < 0x1_0000
    ensures Le16(Low(n), High(n)) == n
  {
    Le16Value(Low(n), High(n));
  }

  lemma Le16Inverse(lo: byte, hi: byte)
    ensures Low(Le16(lo, hi)) == lo && High(Le16(lo, hi)) == hi
  {
    Le16Value(lo, hi);
  }

  // ---- The bits of a byte ----

  lemma {:induction false} NextBits(v: bv8)
    requires v != 255
    ensures (v + 1) as int == v as int + 1
  {}

  lemma {:induction false} SameBits(v: bv8, w: bv8)
    requires v as int == w as int
    ensures v == w
  {}

  /** The bit vector of a byte, built by counting so that only the cheap
      direction of the conversion (bits to integer) is ever reasoned about. */
  function Bits(n: byte): (v: bv8)
    ensures v as int == n
    decreases n
  {
    if n == 0 then 0 else
      var p := Bits(n - 1);
      NextBits(p);
      p + 1
  }

  lemma BitsInjective(a: byte, b: byte)
    requires Bits(a) == Bits(b)
    ensures a == b
  {}

  lemma {:induction false} BitsOfInt(v: bv8)
    ensures 0 <= v as int < 256 && Bits(v as int) == v
  {
    SameBits(Bits(v as int), v);
  }

  function Xor(a: byte, b: byte): byte {
    (Bits(a) ^ Bits(b)) as int
  }

  lemma {:induction false} XorCancels(a: byte, b: byte)
    ensures Xor(Xor(a, b), b) == a
  {
    BitsOfInt(Bits(a) ^ Bits(b));
  }

  lemma {:induction false} XorCommutes(a: byte, b: byte)
    ensures Xor(a, b) == Xor(b, a)
  {}

  /** A run of `n` zero bytes. */
  function Zeros(n: nat): (s: seq<byte>)
    ensures |s| == n && forall i :: 0 <= i < n ==> s[i] == 0
  {
    seq(n, _ => 0)
  }

  // ---- memcpy into a buffer ----

  function Overwrite(buf: seq<byte>, at: nat, s: seq<byte>): (b: seq<byte>)
    requires at + |s| <= |buf|
    ensures |b| == |buf|
  {
    buf[..at] + s + buf[at + |s|..]
  }

  method CopyIn(buf: array<byte>, at: nat, s: seq<byte>)
    requires at + |s| <= buf.Length
    modifies buf
    ensures buf[..] == Overwrite(old(buf[..]), at, s)
  {
    for i := 0 to |s|
      invariant forall k :: at <= k < at + i ==> buf[k] == s[k - at]
      invariant forall k :: 0 <= k < buf.Length && !(at <= k < at + i) ==> buf[k] == old(buf[k])
    {
      buf[at + i] := s[i];
    }
  }
}
