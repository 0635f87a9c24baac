/** SCS_17/18 payload protection (payload.c, sections D.4.5 and D.5): the
    always-pad rule and CBC under the complemented MAC. */
module Payloads {
  import opened Bytes
  import opened Ciphers

  const PAD: byte := 0x80

  /** invert_iv: the bitwise complement. */
  function Invert(mac: Block): Block {
    seq(BLOCK, i requires 0 <= i < BLOCK => 255 - mac[i])
  }

  function PaddedLen(n: nat): nat {
    (n / BLOCK + 1) * BLOCK
  }

  function Pad(p: seq<byte>): (s: seq<byte>)
    ensures |s| == PaddedLen(|p|) && WholeBlocks(s) && s != []
  {
    p + [PAD] + Zeros(PaddedLen(|p|) - |p| - 1)
  }

  /** Walk back over zeros to the marker. */
  function Depad(s: seq<byte>): Result<seq<byte>> {
    if s == [] then Failure(BadPayload)
    else
      var n := |s| - 1;
      if s[n] == PAD then Success(s[..n])
      else if s[n] != 0 then Failure(BadPayload)
      else Depad(s[..n])
  }

  lemma {:induction false} DepadMarked(p: seq<byte>, n: nat)
    ensures Depad(p + [PAD] + Zeros(n)) == Success(p)
  {
    var s := p + [PAD] + Zeros(n);
    if n == 0 {
      assert s == p + [PAD];
      assert s[..|p|] == p;
    } else {
      assert Zeros(n)[..n - 1] == Zeros(n - 1);
      assert s[..|s| - 1] == p + [PAD] + Zeros(n - 1);
      DepadMarked(p, n - 1);
    }
  }

  lemma {:induction false} DepadPad(p: seq<byte>)
    ensures Depad(Pad(p)) == Success(p)
  {
    DepadMarked(p, PaddedLen(|p|) - |p| - 1);
  }

  /** Conversely, a stripped payload is followed by the marker and zeros only. */
  lemma {:induction false} DepadIsMarked(s: seq<byte>)
    requires Depad(s).Success?
    ensures var p := Depad(s).value;
            |p| < |s| && s == p + [PAD] + Zeros(|s| - |p| - 1)
  {
    var n := |s| - 1;
    if s[n] == PAD {
      assert s == s[..n] + [PAD] + Zeros(0);
    } else {
      DepadIsMarked(s[..n]);
      var p := Depad(s[..n]).value;
      assert Zeros(n - |p| - 1) + [0] == Zeros(|s| - |p| - 1);
      assert s == s[..n] + [0];
    }
  }

  /** What osdp_sc_encrypt_payload produces when it has room. */
  function Encrypt(c: Cipher, key: Block, lastInbound: Block, p: seq<byte>): (r: seq<byte>)
    ensures |r| == PaddedLen(|p|)
  {
    CbcEncrypt(c, key, Invert(lastInbound), Pad(p))
  }

  /** osdp_sc_decrypt_payload into a buffer of `cap` bytes. */
  function Decrypt(c: Cipher, key: Block, lastOutbound: Block, s: seq<byte>, cap: nat): Result<seq<byte>> {
    if s == [] || !WholeBlocks(s) then Failure(BadPayload)
    else if |s| > cap then Failure(BufferTooSmall)
    else if c.decrypt.None? then Failure(NotSupported)
    else Depad(CbcDecrypt(c.decrypt.value, key, Invert(lastOutbound), s))
  }

  /** `iv` is the complement of a chaining value. */
  predicate Complements(mac: Block, iv: Block) {
    forall i :: 0 <= i < BLOCK ==> iv[i] == 255 - mac[i]
  }

  /** What encryption puts on the wire (section D.4.5): the CBC, from the
      complemented chaining value, of the payload, 0x80 and as few zeros as
      complete a block. */
  lemma {:induction false} EncryptIsCbc(c: Cipher, key: Block, mac: Block, iv: Block, p: seq<byte>, zeros: nat)
    requires Complements(mac, iv) && zeros < BLOCK && (|p| + 1 + zeros) % BLOCK == 0
    ensures WholeBlocks(p + [0x80] + Zeros(zeros))
    ensures Encrypt(c, key, mac, p) == CbcEncrypt(c, key, iv, p + [0x80] + Zeros(zeros))
  {
    hide CbcEncrypt;
    assert Invert(mac) == iv;
    assert PaddedLen(|p|) == |p| + 1 + zeros;
    assert Pad(p) == p + [0x80] + Zeros(zeros);
  }

  /** Decryption recovers the exact payload, whatever its length. */
  lemma {:induction false} DecryptEncrypt(c: Cipher, key: Block, mac: Block, p: seq<byte>, cap: nat)
    requires Inverts(c) && PaddedLen(|p|) <= cap
    ensures Decrypt(c, key, mac, Encrypt(c, key, mac, p), cap) == Success(p)
  {
    hide CbcEncrypt, CbcDecrypt, Invert, Pad, Depad;
    CbcRoundTrip(c, key, Invert(mac), Pad(p));
    DepadPad(p);
  }

  // ---- The methods of payload.c ----

  /** osdp_sc_encrypt_payload, into `buf[at..at + room]`. The plaintext is read
      before anything is written, so it may lie in `buf` itself. */
  method EncryptInto(c: Cipher, key: Block, lastInbound: Block, p: seq<byte>,
                     buf: array<byte>, at: nat, room: nat) returns (r: Result<nat>)
    requires at + room <= buf.Length
    modifies buf
    ensures r == if PaddedLen(|p|) > room then Failure(BufferTooSmall) else Success(PaddedLen(|p|))
    ensures r.Success? ==> buf[at..at + r.value] == Encrypt(c, key, lastInbound, p)
    ensures r.Failure? ==> buf[..] == old(buf[..])
    ensures r.Success? ==> forall k :: 0 <= k < buf.Length && !(at <= k < at + r.value) ==> buf[k] == old(buf[k])
  {
    hide CbcEncrypt, Invert, Pad;
    var n := PaddedLen(|p|);
    if n > room {
      return Failure(BufferTooSmall);
    }
    PadInto(p, buf, at);
    var s := EncryptBlocks(c, key, Invert(lastInbound), buf, at, n, buf, at);
    assert n % BLOCK == 0 && n != 0;
    r := Success(n);
  }

  /** memmove, marker and memset. */
  method PadInto(p: seq<byte>, buf: array<byte>, at: nat)
    requires at + PaddedLen(|p|) <= buf.Length
    modifies buf
    ensures buf[at..at + PaddedLen(|p|)] == Pad(p)
    ensures forall k :: 0 <= k < buf.Length && !(at <= k < at + PaddedLen(|p|)) ==> buf[k] == old(buf[k])
  {
    var n := PaddedLen(|p|);
    for i := 0 to |p|
      invariant forall k :: at <= k < at + i ==> buf[k] == p[k - at]
      invariant forall k :: 0 <= k < buf.Length && !(at <= k < at + i) ==> buf[k] == old(buf[k])
    {
      buf[at + i] := p[i];
    }
    buf[at + |p|] := PAD;
    for i := |p| + 1 to n
      invariant forall k :: at <= k < at + |p| ==> buf[k] == p[k - at]
      invariant buf[at + |p|] == PAD
      invariant forall k :: at + |p| < k < at + i ==> buf[k] == 0
      invariant forall k :: 0 <= k < buf.Length && !(at <= k < at + n) ==> buf[k] == old(buf[k])
    {
      buf[at + i] := 0;
    }
    ghost var out := buf[at..at + n];
    assert |out| == |Pad(p)|;
    assert forall k :: 0 <= k < |p| ==> out[k] == p[k];
    assert out[|p|] == PAD && forall k :: |p| < k < n ==> out[k] == 0;
  }

  /** osdp_sc_decrypt_payload from `src[from..from + len]` to the front of `dst`. */
  method DecryptInto(c: Cipher, key: Block, lastOutbound: Block, src: array<byte>, from: nat, len: nat,
                     dst: array<byte>) returns (r: Result<nat>)
    requires from + len <= src.Length && src != dst
    modifies dst
    ensures match Decrypt(c, key, lastOutbound, src[from..from + len], dst.Length)
            case Success(p) => r == Success(|p|) && |p| <= dst.Length && dst[..|p|] == p
            case Failure(e) => r == Failure(e)
  {
    hide CbcDecrypt, Invert;
    if len == 0 || len % BLOCK != 0 {
      return Failure(BadPayload);
    }
    if len > dst.Length {
      return Failure(BufferTooSmall);
    }
    var done := DecryptBlocks(c, key, Invert(lastOutbound), src, from, len, dst, 0);
    if done.Failure? {
      return Failure(done.error);
    }
    r := FindMarker(dst, len);
  }

  /** The backward loop that strips the padding. */
  method FindMarker(dst: array<byte>, len: nat) returns (r: Result<nat>)
    requires len <= dst.Length
    ensures match Depad(dst[..len])
            case Success(p) => r == Success(|p|) && |p| <= len && dst[..|p|] == p
            case Failure(e) => r == Failure(e)
  {
    var i := len;
    while i > 0
      invariant 0 <= i <= len
      invariant Depad(dst[..len]) == Depad(dst[..i])
    {
      i := i - 1;
      assert dst[..i + 1][..i] == dst[..i];
      if dst[i] == PAD {
        return Success(i);
      }
      if dst[i] != 0 {
        return Failure(BadPayload);
      }
    }
    r := Failure(BadPayload);
  }
}
