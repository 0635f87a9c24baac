/** The block cipher and the CBC mode built on it (cbc.c, Annex D). */
module Ciphers {
  import opened Bytes

  const BLOCK := 16

  type Block = s: seq<byte> | |s| == BLOCK witness Zeros(BLOCK)

  /** osdp_sc_crypto_t: AES-128 as two functions on blocks. A role that never
      decrypts may leave the second one out. */
  datatype Cipher = Cipher(encrypt: (Block, Block) -> Block, decrypt: Option<(Block, Block) -> Block>)

  /** Decryption is present and undoes encryption under the same key. */
  ghost predicate Inverts(c: Cipher) {
    c.decrypt.Some? && forall k: Block, b: Block :: c.decrypt.value(k, c.encrypt(k, b)) == b
  }

  function XorBlock(a: Block, b: Block): Block {
    seq(BLOCK, i requires 0 <= i < BLOCK => Xor(a[i], b[i]))
  }

  lemma {:induction false} XorBlockCancels(a: Block, b: Block)
    ensures XorBlock(XorBlock(a, b), b) == a
  {
    hide Xor;
    forall i | 0 <= i < BLOCK
      ensures XorBlock(XorBlock(a, b), b)[i] == a[i]
    {
      XorCancels(a[i], b[i]);
    }
  }

  lemma {:induction false} XorBlockInjective(a: Block, b: Block, c: Block)
    requires XorBlock(a, c) == XorBlock(b, c)
    ensures a == b
  {
    hide XorBlock;
    XorBlockCancels(a, c);
    XorBlockCancels(b, c);
  }

  lemma {:induction false} XorBlockCommutes(a: Block, b: Block)
    ensures XorBlock(a, b) == XorBlock(b, a)
  {
    hide Xor;
    forall i | 0 <= i < BLOCK
      ensures XorBlock(a, b)[i] == XorBlock(b, a)[i]
    {
      XorCommutes(a[i], b[i]);
    }
  }

  lemma {:induction false} EncryptInjective(c: Cipher, k: Block, a: Block, b: Block)
    requires Inverts(c) && c.encrypt(k, a) == c.encrypt(k, b)
    ensures a == b
  {
    assert c.decrypt.value(k, c.encrypt(k, a)) == a;
    assert c.decrypt.value(k, c.encrypt(k, b)) == b;
  }

  // ---- CBC on sequences ----

  predicate WholeBlocks(s: seq<byte>) {
    |s| % BLOCK == 0
  }

  function CbcEncrypt(c: Cipher, key: Block, iv: Block, s: seq<byte>): (r: seq<byte>)
    requires WholeBlocks(s)
    ensures |r| == |s|
    decreases |s|
  {
    if s == [] then [] else
      var x := c.encrypt(key, XorBlock(s[..BLOCK], iv));
      x + CbcEncrypt(c, key, x, s[BLOCK..])
  }

  function CbcDecrypt(d: (Block, Block) -> Block, key: Block, iv: Block, s: seq<byte>): (r: seq<byte>)
    requires WholeBlocks(s)
    ensures |r| == |s|
    decreases |s|
  {
    if s == [] then [] else
      XorBlock(d(key, s[..BLOCK]), iv) + CbcDecrypt(d, key, s[..BLOCK], s[BLOCK..])
  }

  lemma {:induction false} CbcRoundTrip(c: Cipher, key: Block, iv: Block, s: seq<byte>)
    requires Inverts(c) && WholeBlocks(s)
    ensures CbcDecrypt(c.decrypt.value, key, iv, CbcEncrypt(c, key, iv, s)) == s
    decreases |s|
  {
    hide XorBlock;
    if s != [] {
      var b: Block := s[..BLOCK];
      var x := c.encrypt(key, XorBlock(b, iv));
      var r := CbcEncrypt(c, key, iv, s);
      assert r[..BLOCK] == x && r[BLOCK..] == CbcEncrypt(c, key, x, s[BLOCK..]);
      assert c.decrypt.value(key, x) == XorBlock(b, iv);
      XorBlockCancels(b, iv);
      CbcRoundTrip(c, key, x, s[BLOCK..]);
    }
  }

  /** The chaining value after a prefix: its last ciphertext block. */
  function LastBlock(iv: Block, s: seq<byte>): Block {
    if |s| < BLOCK then iv else s[|s| - BLOCK..]
  }

  lemma {:induction false} CbcEncryptAppend(c: Cipher, key: Block, iv: Block, s: seq<byte>, t: seq<byte>)
    requires WholeBlocks(s) && WholeBlocks(t)
    ensures WholeBlocks(s + t)
    ensures var r := CbcEncrypt(c, key, iv, s);
            CbcEncrypt(c, key, iv, s + t) == r + CbcEncrypt(c, key, LastBlock(iv, r), t)
    decreases |s|
  {
    hide XorBlock;
    if s == [] {
      assert s + t == t;
    } else {
      var x := c.encrypt(key, XorBlock(s[..BLOCK], iv));
      assert (s + t)[..BLOCK] == s[..BLOCK] && (s + t)[BLOCK..] == s[BLOCK..] + t;
      CbcEncryptAppend(c, key, x, s[BLOCK..], t);
      var r := CbcEncrypt(c, key, x, s[BLOCK..]);
      assert LastBlock(iv, x + r) == LastBlock(x, r);
    }
  }

  /** Each ciphertext block encrypts its plaintext block added to the ciphertext
      block before it, or to the initial vector. */
  lemma {:induction false} CbcBlockAt(c: Cipher, key: Block, iv: Block, s: seq<byte>, i: nat)
    requires WholeBlocks(s) && (i + 1) * BLOCK <= |s|
    ensures var r := CbcEncrypt(c, key, iv, s);
            r[i * BLOCK..(i + 1) * BLOCK] ==
            c.encrypt(key, XorBlock(s[i * BLOCK..(i + 1) * BLOCK], if i == 0 then iv else r[(i - 1) * BLOCK..i * BLOCK]))
    decreases i
  {
    hide XorBlock;
    var x := c.encrypt(key, XorBlock(s[..BLOCK], iv));
    var r := CbcEncrypt(c, key, iv, s);
    var t, q := s[BLOCK..], CbcEncrypt(c, key, x, s[BLOCK..]);
    assert r == x + q;
    if i > 0 {
      CbcBlockAt(c, key, x, t, i - 1);
      assert t[(i - 1) * BLOCK..i * BLOCK] == s[i * BLOCK..(i + 1) * BLOCK];
      assert q[(i - 1) * BLOCK..i * BLOCK] == r[i * BLOCK..(i + 1) * BLOCK];
      if i > 1 {
        assert q[(i - 2) * BLOCK..(i - 1) * BLOCK] == r[(i - 1) * BLOCK..i * BLOCK];
      }
    }
  }

  lemma {:induction false} CbcEncryptBlock(c: Cipher, key: Block, iv: Block, b: Block)
    ensures CbcEncrypt(c, key, iv, b) == c.encrypt(key, XorBlock(b, iv))
  {
    hide XorBlock;
    assert b[..BLOCK] == b && b[BLOCK..] == [];
  }

  lemma {:induction false} CbcDecryptAppend(d: (Block, Block) -> Block, key: Block, iv: Block, s: seq<byte>, b: Block)
    requires WholeBlocks(s)
    ensures WholeBlocks(s + b)
    ensures CbcDecrypt(d, key, iv, s + b) ==
            CbcDecrypt(d, key, iv, s) + XorBlock(d(key, b), LastBlock(iv, s))
    decreases |s|
  {
    hide XorBlock;
    if s == [] {
      assert s + b == b && b[..BLOCK] == b && b[BLOCK..] == [];
    } else {
      assert (s + b)[..BLOCK] == s[..BLOCK] && (s + b)[BLOCK..] == s[BLOCK..] + b;
      CbcDecryptAppend(d, key, s[..BLOCK], s[BLOCK..], b);
      assert LastBlock(iv, s) == LastBlock(s[..BLOCK], s[BLOCK..]);
    }
  }

  // ---- The in-place loops of cbc.c ----

  /** Copy one block over a place in `buf`. */
  method StoreBlock(buf: array<byte>, at: nat, b: Block)
    requires at + BLOCK <= buf.Length
    modifies buf
    ensures buf[at..at + BLOCK] == b
    ensures forall k :: 0 <= k < buf.Length && !(at <= k < at + BLOCK) ==> buf[k] == old(buf[k])
  {
    for i := 0 to BLOCK
      invariant forall k :: at <= k < at + i ==> buf[k] == b[k - at]
      invariant forall k :: 0 <= k < buf.Length && !(at <= k < at + i) ==> buf[k] == old(buf[k])
    {
      buf[at + i] := b[i];
    }
  }

  /** The source holds, from block `b` on, what it held at the start: either it
      is another array, or it is overwritten in step. */
  predicate Unread(src: array<byte>, from: nat, plain: seq<byte>, n: nat)
    reads src
    requires n <= |plain| && from + |plain| <= src.Length
  {
    forall k :: n <= k < |plain| ==> src[from + k] == plain[k]
  }

  lemma {:induction false} NextBlock(plain: seq<byte>, n: nat)
    requires n + BLOCK <= |plain|
    ensures plain[..n + BLOCK] == plain[..n] + plain[n..n + BLOCK]
    ensures |plain[n..n + BLOCK]| == BLOCK
  {}

  lemma {:induction false} EncryptRound(c: Cipher, key: Block, iv: Block, plain: seq<byte>, n: nat)
    requires n + BLOCK <= |plain| && n % BLOCK == 0
    ensures (n + BLOCK) % BLOCK == 0
    ensures var done := CbcEncrypt(c, key, iv, plain[..n]);
            var x := c.encrypt(key, XorBlock(plain[n..n + BLOCK], LastBlock(iv, done)));
            CbcEncrypt(c, key, iv, plain[..n + BLOCK]) == done + x && LastBlock(iv, done + x) == x
  {
    hide XorBlock, CbcEncrypt;
    NextBlock(plain, n);
    var done := CbcEncrypt(c, key, iv, plain[..n]);
    CbcEncryptAppend(c, key, iv, plain[..n], plain[n..n + BLOCK]);
    CbcEncryptBlock(c, key, LastBlock(iv, done), plain[n..n + BLOCK]);
  }

  lemma {:induction false} DecryptRound(d: (Block, Block) -> Block, key: Block, iv: Block, cipher: seq<byte>, n: nat)
    requires n + BLOCK <= |cipher| && n % BLOCK == 0
    ensures (n + BLOCK) % BLOCK == 0
    ensures var b := cipher[n..n + BLOCK];
            CbcDecrypt(d, key, iv, cipher[..n + BLOCK]) ==
            CbcDecrypt(d, key, iv, cipher[..n]) + XorBlock(d(key, b), LastBlock(iv, cipher[..n]))
            && LastBlock(iv, cipher[..n + BLOCK]) == b
  {
    hide XorBlock, CbcDecrypt;
    NextBlock(cipher, n);
    CbcDecryptAppend(d, key, iv, cipher[..n], cipher[n..n + BLOCK]);
  }

  /** Put one block behind the `n` output bytes already written. */
  method StoreNext(dst: array<byte>, to: nat, n: nat, x: Block)
    requires to + n + BLOCK <= dst.Length
    modifies dst
    ensures dst[to..to + n + BLOCK] == old(dst[to..to + n]) + x
    ensures forall k :: 0 <= k < dst.Length && !(to + n <= k < to + n + BLOCK) ==> dst[k] == old(dst[k])
  {
    StoreBlock(dst, to + n, x);
    assert dst[to..to + n] == old(dst[to..to + n]);
    assert dst[to..to + n + BLOCK] == dst[to..to + n] + dst[to + n..to + n + BLOCK];
  }

  /** osdp_sc_cbc_encrypt; the ciphertext may overwrite the plaintext. */
  method EncryptBlocks(c: Cipher, key: Block, iv: Block, src: array<byte>, from: nat, len: nat,
                       dst: array<byte>, to: nat) returns (r: Result<()>)
    requires from + len <= src.Length && to + len <= dst.Length
    requires src != dst || from == to
    modifies dst
    ensures r == if len == 0 || len % BLOCK != 0 then Failure(InvalidArg) else Success(())
    ensures r.Success? ==> dst[to..to + len] == CbcEncrypt(c, key, iv, old(src[from..from + len]))
    ensures r.Failure? ==> dst[..] == old(dst[..])
    ensures forall k :: 0 <= k < dst.Length && !(to <= k < to + len) ==> dst[k] == old(dst[k])
  {
    hide XorBlock, CbcEncrypt, LastBlock;
    if len == 0 || len % BLOCK != 0 {
      return Failure(InvalidArg);
    }
    ghost var plain := src[from..from + len];
    var chain := iv;
    var n := 0;
    EncryptNothing(c, key, iv);
    assert plain[..0] == [];
    while n < len
      invariant n <= len && n % BLOCK == 0
      invariant dst[to..to + n] == CbcEncrypt(c, key, iv, plain[..n])
      invariant chain == LastBlock(iv, CbcEncrypt(c, key, iv, plain[..n]))
      invariant Unread(src, from, plain, n)
      invariant forall k :: 0 <= k < dst.Length && !(to <= k < to + n) ==> dst[k] == old(dst[k])
    {
      var block: Block := src[from + n..from + n + BLOCK];
      assert block == plain[n..n + BLOCK];
      EncryptRound(c, key, iv, plain, n);
      chain := c.encrypt(key, XorBlock(block, chain));
      StoreNext(dst, to, n, chain);
      n := n + BLOCK;
    }
    assert plain[..len] == plain;
    r := Success(());
  }

  lemma {:induction false} EncryptNothing(c: Cipher, key: Block, iv: Block)
    ensures CbcEncrypt(c, key, iv, []) == [] && LastBlock(iv, []) == iv
  {}

  lemma {:induction false} DecryptNothing(d: (Block, Block) -> Block, key: Block, iv: Block)
    ensures CbcDecrypt(d, key, iv, []) == [] && LastBlock(iv, []) == iv
  {}

  /** osdp_sc_cbc_decrypt; the plaintext may overwrite the ciphertext. */
  method DecryptBlocks(c: Cipher, key: Block, iv: Block, src: array<byte>, from: nat, len: nat,
                       dst: array<byte>, to: nat) returns (r: Result<()>)
    requires from + len <= src.Length && to + len <= dst.Length
    requires src != dst || from == to
    modifies dst
    ensures r == if c.decrypt.None? then Failure(NotSupported)
                 else if len == 0 || len % BLOCK != 0 then Failure(InvalidArg) else Success(())
    ensures r.Success? ==> dst[to..to + len] == CbcDecrypt(c.decrypt.value, key, iv, old(src[from..from + len]))
    ensures r.Failure? ==> dst[..] == old(dst[..])
    ensures forall k :: 0 <= k < dst.Length && !(to <= k < to + len) ==> dst[k] == old(dst[k])
  {
    hide XorBlock, CbcDecrypt, LastBlock;
    if c.decrypt.None? {
      return Failure(NotSupported);
    }
    if len == 0 || len % BLOCK != 0 {
      return Failure(InvalidArg);
    }
    var d := c.decrypt.value;
    ghost var cipher := src[from..from + len];
    var prev := iv;
    var n := 0;
    DecryptNothing(d, key, iv);
    assert cipher[..0] == [];
    while n < len
      invariant n <= len && n % BLOCK == 0
      invariant dst[to..to + n] == CbcDecrypt(d, key, iv, cipher[..n])
      invariant prev == LastBlock(iv, cipher[..n])
      invariant Unread(src, from, cipher, n)
      invariant forall k :: 0 <= k < dst.Length && !(to <= k < to + n) ==> dst[k] == old(dst[k])
    {
      var current: Block := src[from + n..from + n + BLOCK];
      assert current == cipher[n..n + BLOCK];
      DecryptRound(d, key, iv, cipher, n);
      StoreNext(dst, to, n, XorBlock(d(key, current), prev));
      prev := current;
      n := n + BLOCK;
    }
    assert cipher[..len] == cipher;
    r := Success(());
  }
}
