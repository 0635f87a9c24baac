/** The two-key CBC-MAC of the Secure Channel (mac.c, section D.5). */
module Macs {
  import opened Bytes
  import opened Ciphers

  const TRUNCATED := 4

  /** Padding happens only when the message is not already whole blocks, and an
      empty message counts as not whole. */
  function MacPad(m: seq<byte>): (s: seq<byte>)
    ensures WholeBlocks(s) && |s| >= BLOCK
  {
    if m != [] && WholeBlocks(m) then m
    else m + [0x80] + Zeros(BLOCK - |m| % BLOCK - 1)
  }

  /** S-MAC1 on every block but the last, S-MAC2 on the last. */
  function MacBlocks(c: Cipher, key1: Block, key2: Block, icv: Block, s: seq<byte>): Block
    requires WholeBlocks(s) && |s| >= BLOCK
    decreases |s|
  {
    if |s| == BLOCK then c.encrypt(key2, XorBlock(s, icv))
    else MacBlocks(c, key1, key2, c.encrypt(key1, XorBlock(s[..BLOCK], icv)), s[BLOCK..])
  }

  function Mac(c: Cipher, key1: Block, key2: Block, icv: Block, m: seq<byte>): Block {
    MacBlocks(c, key1, key2, icv, MacPad(m))
  }

  /** As section D.5 states it: CBC-encrypt all blocks but the last under
      S-MAC1, and the last one, chained to them, under S-MAC2. */
  lemma {:induction false} MacIsCbc(c: Cipher, key1: Block, key2: Block, icv: Block, s: seq<byte>)
    requires WholeBlocks(s) && |s| >= BLOCK
    ensures var n := |s| - BLOCK;
            n % BLOCK == 0 &&
            MacBlocks(c, key1, key2, icv, s) ==
            c.encrypt(key2, XorBlock(s[n..], LastBlock(icv, CbcEncrypt(c, key1, icv, s[..n]))))
    decreases |s|
  {
    hide XorBlock;
    var n := |s| - BLOCK;
    if n == 0 {
      assert s[..0] == [] && s[0..] == s;
    } else {
      var x := c.encrypt(key1, XorBlock(s[..BLOCK], icv));
      var t := s[BLOCK..];
      MacIsCbc(c, key1, key2, x, t);
      assert t[n - BLOCK..] == s[n..];
      assert s[..n][..BLOCK] == s[..BLOCK] && s[..n][BLOCK..] == t[..n - BLOCK];
      var r := CbcEncrypt(c, key1, x, t[..n - BLOCK]);
      assert LastBlock(icv, x + r) == LastBlock(x, r);
    }
  }

  /** `s` is `m` as section D.5 pads it: whole blocks stay as they are, anything
      else gets 0x80 and as few zeros as complete a block. */
  predicate PadsTo(m: seq<byte>, s: seq<byte>) {
    && WholeBlocks(s) && |s| >= BLOCK && m <= s
    && (if m != [] && WholeBlocks(m) then s == m
        else |m| < |s| <= |m| + BLOCK && s[|m|] == 0x80 && forall k :: |m| < k < |s| ==> s[k] == 0)
  }

  /** The MAC of a message, on the whole of it. */
  lemma {:induction false} MacOfMessage(c: Cipher, key1: Block, key2: Block, icv: Block, m: seq<byte>, s: seq<byte>)
    requires PadsTo(m, s)
    ensures var n := |s| - BLOCK;
            n % BLOCK == 0 &&
            Mac(c, key1, key2, icv, m) ==
            c.encrypt(key2, XorBlock(s[n..], LastBlock(icv, CbcEncrypt(c, key1, icv, s[..n]))))
  {
    hide XorBlock, MacBlocks, CbcEncrypt;
    PaddedSize(m);
    assert s == MacPad(m);
    MacIsCbc(c, key1, key2, icv, s);
  }

  /** The two differ in one block and nowhere else. */
  predicate DifferInBlock(s: seq<byte>, t: seq<byte>, i: nat) {
    && |s| == |t| && s != t
    && s[..Min(i * BLOCK, |s|)] == t[..Min(i * BLOCK, |s|)]
    && s[Min((i + 1) * BLOCK, |s|)..] == t[Min((i + 1) * BLOCK, |s|)..]
  }

  lemma {:induction false} MacBlocksDetects(c: Cipher, key1: Block, key2: Block, icv: Block, s: seq<byte>, t: seq<byte>, i: nat)
    requires Inverts(c) && WholeBlocks(s) && |s| >= BLOCK && DifferInBlock(s, t, i)
    ensures MacBlocks(c, key1, key2, icv, s) != MacBlocks(c, key1, key2, icv, t)
    decreases i
  {
    hide XorBlock;
    var a: Block, b: Block := s[..BLOCK], t[..BLOCK];
    assert s == a + s[BLOCK..] && t == b + t[BLOCK..];
    if i == 0 {
      var key := if |s| == BLOCK then key2 else key1;
      var x, y := c.encrypt(key, XorBlock(a, icv)), c.encrypt(key, XorBlock(b, icv));
      if x == y {
        EncryptInjective(c, key, XorBlock(a, icv), XorBlock(b, icv));
        XorBlockInjective(a, b, icv);
      }
      if |s| == BLOCK {
        assert s == a && t == b;
      } else if MacBlocks(c, key1, key2, icv, s) == MacBlocks(c, key1, key2, icv, t) {
        MacBlocksInjective(c, key1, key2, x, y, s[BLOCK..]);
      }
    } else {
      assert a == s[..Min(i * BLOCK, |s|)][..BLOCK] == b;
      assert |s| > BLOCK;
      TailsDiffer(s, t, i);
      MacBlocksDetects(c, key1, key2, c.encrypt(key1, XorBlock(a, icv)), s[BLOCK..], t[BLOCK..], i - 1);
    }
  }

  lemma {:induction false} TailsDiffer(s: seq<byte>, t: seq<byte>, i: nat)
    requires DifferInBlock(s, t, i) && i > 0 && |s| > BLOCK && s[..BLOCK] == t[..BLOCK]
    ensures DifferInBlock(s[BLOCK..], t[BLOCK..], i - 1)
  {
    var u, v := s[BLOCK..], t[BLOCK..];
    var p, q := Min(i * BLOCK, |s|), Min((i + 1) * BLOCK, |s|);
    assert Min((i - 1) * BLOCK, |u|) == p - BLOCK && Min(i * BLOCK, |u|) == q - BLOCK;
    assert s == s[..BLOCK] + u && t == t[..BLOCK] + v;
    assert u[..p - BLOCK] == s[..p][BLOCK..] && v[..p - BLOCK] == t[..p][BLOCK..];
    assert u[q - BLOCK..] == s[q..] && v[q - BLOCK..] == t[q..];
  }

  /** Messages of one length that differ within one block have different whole
      MACs. */
  lemma {:induction false} MacDetects(c: Cipher, key1: Block, key2: Block, icv: Block, m: seq<byte>, m': seq<byte>, i: nat)
    requires Inverts(c) && DifferInBlock(m, m', i)
    ensures Mac(c, key1, key2, icv, m) != Mac(c, key1, key2, icv, m')
  {
    hide MacBlocks;
    var s, t := MacPad(m), MacPad(m');
    PaddedSize(m);
    PaddedSize(m');
    PadsDiffer(m, m', i);
    MacBlocksDetects(c, key1, key2, icv, s, t, i);
  }

  lemma {:induction false} PadsDiffer(m: seq<byte>, m': seq<byte>, i: nat)
    requires DifferInBlock(m, m', i)
    ensures DifferInBlock(MacPad(m), MacPad(m'), i)
  {
    var s, t := MacPad(m), MacPad(m');
    var n := |m|;
    assert s[..n] == m && t[..n] == m' && s[n..] == t[n..];
    assert |s| == |t| && s != t;
    var p, q := Min(i * BLOCK, n), Min((i + 1) * BLOCK, n);
    assert i * BLOCK <= n;
    var q' := Min((i + 1) * BLOCK, |s|);
    assert s[..p] == m[..p] && t[..p] == m'[..p];
    forall k | q' <= k < |s|
      ensures s[k] == t[k]
    {
      if k < n {
        assert m[q..][k - q] == m'[q..][k - q];
      } else {
        assert s[k] == s[n..][k - n] && t[k] == t[n..][k - n];
      }
    }
  }

  lemma {:induction false} MacBlocksInjective(c: Cipher, key1: Block, key2: Block, icv: Block, icv': Block, s: seq<byte>)
    requires Inverts(c) && WholeBlocks(s) && |s| >= BLOCK
    requires MacBlocks(c, key1, key2, icv, s) == MacBlocks(c, key1, key2, icv', s)
    ensures icv == icv'
    decreases |s|
  {
    hide XorBlock;
    var key := if |s| == BLOCK then key2 else key1;
    var b: Block := s[..BLOCK];
    var x, y := c.encrypt(key, XorBlock(b, icv)), c.encrypt(key, XorBlock(b, icv'));
    if |s| == BLOCK {
      assert s == b;
    } else {
      MacBlocksInjective(c, key1, key2, x, y, s[BLOCK..]);
    }
    EncryptInjective(c, key, XorBlock(b, icv), XorBlock(b, icv'));
    XorBlockCommutes(b, icv);
    XorBlockCommutes(b, icv');
    XorBlockInjective(icv, icv', b);
  }

  /** Peers whose chains have parted compute different MACs for every message. */
  lemma {:induction false} MacInjectiveInIcv(c: Cipher, key1: Block, key2: Block, icv: Block, icv': Block, m: seq<byte>)
    requires Inverts(c) && icv != icv'
    ensures Mac(c, key1, key2, icv, m) != Mac(c, key1, key2, icv', m)
  {
    hide MacBlocks;
    if Mac(c, key1, key2, icv, m) == Mac(c, key1, key2, icv', m) {
      MacBlocksInjective(c, key1, key2, icv, icv', MacPad(m));
    }
  }

  /** osdp_sc_compute_mac over `msg[from..from + len]`. */
  method Compute(c: Cipher, key1: Block, key2: Block, icv: Block, msg: array<byte>, from: nat, len: nat)
    returns (mac: Block)
    requires from + len <= msg.Length
    ensures mac == Mac(c, key1, key2, icv, msg[from..from + len])
  {
    hide XorBlock, MacBlocks, MacPad, WholeBlocks;
    ghost var m := msg[from..from + len];
    ghost var s := MacPad(m);
    PaddedSize(m);
    var remainder := len % BLOCK;
    var padded := if remainder == 0 && len > 0 then len else len - remainder + BLOCK;
    mac := icv;
    var n := 0;
    assert s[0..] == s;
    while n < padded - BLOCK
      invariant n <= padded - BLOCK && n % BLOCK == 0
      invariant WholeBlocks(s[n..])
      invariant MacBlocks(c, key1, key2, mac, s[n..]) == Mac(c, key1, key2, icv, m)
    {
      MacRound(c, key1, key2, mac, m, n);
      var block: Block := msg[from + n..from + n + BLOCK];
      SliceOfSlice(msg[..], from, len, n, n + BLOCK);
      mac := c.encrypt(key1, XorBlock(block, mac));
      n := n + BLOCK;
    }
    var block := PadLast(msg, from, len, n);
    LastRound(c, key1, key2, mac, s[n..]);
    mac := c.encrypt(key2, XorBlock(block, mac));
  }

  /** The last block: copied whole, or padded. */
  method PadLast(msg: array<byte>, from: nat, len: nat, n: nat) returns (block: Block)
    requires from + len <= msg.Length && n + BLOCK == |MacPad(msg[from..from + len])|
    ensures block == MacPad(msg[from..from + len])[n..]
  {
    ghost var m := msg[from..from + len];
    PaddedSize(m);
    FinalBlock(m, n);
    hide MacPad;
    if n + BLOCK <= len {
      SliceOfSlice(msg[..], from, len, n, n + BLOCK);
      block := msg[from + n..from + n + BLOCK];
    } else {
      SliceOfSlice(msg[..], from, len, n, len);
      block := msg[from + n..from + len] + [0x80] + Zeros(BLOCK - (len - n) - 1);
    }
  }

  lemma {:induction false} SliceOfSlice(s: seq<byte>, from: nat, len: nat, i: nat, j: nat)
    requires from + len <= |s| && i <= j <= len
    ensures s[from..from + len][i..j] == s[from + i..from + j]
  {
    var a, b := s[from..from + len][i..j], s[from + i..from + j];
    assert |a| == |b|;
    forall k | 0 <= k < |a|
      ensures a[k] == b[k]
    {}
  }

  lemma {:induction false} PaddedSize(m: seq<byte>)
    ensures |MacPad(m)| == if m != [] && |m| % BLOCK == 0 then |m| else |m| - |m| % BLOCK + BLOCK
  {}

  /** The last block: whole, or what is left of the message with its padding. */
  lemma {:induction false} FinalBlock(m: seq<byte>, n: nat)
    requires n == |MacPad(m)| - BLOCK
    ensures MacPad(m)[n..] ==
            if n + BLOCK <= |m| then m[n..n + BLOCK]
            else m[n..] + [0x80] + Zeros(BLOCK - (|m| - n) - 1)
  {}

  lemma {:induction false} MacRound(c: Cipher, key1: Block, key2: Block, icv: Block, m: seq<byte>, n: nat)
    requires n % BLOCK == 0 && n + BLOCK < |MacPad(m)|
    ensures n + BLOCK <= |m| && (n + BLOCK) % BLOCK == 0
    ensures var s := MacPad(m);
            WholeBlocks(s[n..]) && WholeBlocks(s[n + BLOCK..]) &&
            MacBlocks(c, key1, key2, icv, s[n..]) ==
            MacBlocks(c, key1, key2, c.encrypt(key1, XorBlock(m[n..n + BLOCK], icv)), s[n + BLOCK..])
  {
    hide XorBlock;
    var s := MacPad(m);
    assert s[n..][..BLOCK] == m[n..n + BLOCK];
    assert s[n..][BLOCK..] == s[n + BLOCK..];
  }

  lemma {:induction false} LastRound(c: Cipher, key1: Block, key2: Block, icv: Block, b: Block)
    ensures MacBlocks(c, key1, key2, icv, b) == c.encrypt(key2, XorBlock(b, icv))
  {}
}
