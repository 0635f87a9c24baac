/** Session keys, cryptograms and the initial R-MAC (keys.c, section D.4). */
module Keys {
  import opened Bytes
  import opened Ciphers

  const RND_LEN := 8

  type Nonce = s: seq<byte> | |s| == RND_LEN witness Zeros(RND_LEN)

  datatype SessionKeys = SessionKeys(enc: Block, mac1: Block, mac2: Block)

  /** build_derivation_input: only six bytes of RND.A take part. */
  function DerivationInput(selector: byte, rndA: Nonce): Block {
    [0x01, selector] + rndA[..6] + Zeros(8)
  }

  /** osdp_sc_derive_session_keys. */
  function Derive(c: Cipher, scbk: Block, rndA: Nonce): SessionKeys {
    SessionKeys(c.encrypt(scbk, DerivationInput(0x82, rndA)),
                c.encrypt(scbk, DerivationInput(0x01, rndA)),
                c.encrypt(scbk, DerivationInput(0x02, rndA)))
  }

  /** osdp_sc_client_cryptogram. */
  function ClientCryptogram(c: Cipher, enc: Block, rndA: Nonce, rndB: Nonce): Block {
    c.encrypt(enc, rndA + rndB)
  }

  /** osdp_sc_server_cryptogram: the two nonces swapped. */
  function ServerCryptogram(c: Cipher, enc: Block, rndA: Nonce, rndB: Nonce): Block {
    c.encrypt(enc, rndB + rndA)
  }

  /** osdp_sc_initial_rmac. */
  function InitialRmac(c: Cipher, keys: SessionKeys, serverCryptogram: Block): Block {
    c.encrypt(keys.mac2, c.encrypt(keys.mac1, serverCryptogram))
  }

  /** The derivation as section D.4.1 of Annex D writes it, byte for byte. */
  lemma {:induction false} DerivedKeys(c: Cipher, scbk: Block, rndA: Nonce)
    ensures var k := Derive(c, scbk, rndA);
            var r := [rndA[0], rndA[1], rndA[2], rndA[3], rndA[4], rndA[5], 0, 0, 0, 0, 0, 0, 0, 0];
            && k.enc == c.encrypt(scbk, [0x01, 0x82] + r)
            && k.mac1 == c.encrypt(scbk, [0x01, 0x01] + r)
            && k.mac2 == c.encrypt(scbk, [0x01, 0x02] + r)
  {
    var r := [rndA[0], rndA[1], rndA[2], rndA[3], rndA[4], rndA[5], 0, 0, 0, 0, 0, 0, 0, 0];
    assert rndA[..6] + Zeros(8) == r;
    forall x: byte
      ensures DerivationInput(x, rndA) == [0x01, x] + r
    {
      assert [0x01, x] + rndA[..6] + Zeros(8) == [0x01, x] + (rndA[..6] + Zeros(8));
    }
  }

  /** The three keys of one session are different keys. */
  lemma {:induction false} DerivedKeysDiffer(c: Cipher, scbk: Block, rndA: Nonce)
    requires Inverts(c)
    ensures var k := Derive(c, scbk, rndA); k.enc != k.mac1 && k.enc != k.mac2 && k.mac1 != k.mac2
  {
    var e, m1, m2 := DerivationInput(0x82, rndA), DerivationInput(0x01, rndA), DerivationInput(0x02, rndA);
    assert e[1] == 0x82 && m1[1] == 0x01 && m2[1] == 0x02;
    if c.encrypt(scbk, e) == c.encrypt(scbk, m1) { EncryptInjective(c, scbk, e, m1); }
    if c.encrypt(scbk, e) == c.encrypt(scbk, m2) { EncryptInjective(c, scbk, e, m2); }
    if c.encrypt(scbk, m1) == c.encrypt(scbk, m2) { EncryptInjective(c, scbk, m1, m2); }
  }

  /** Under one S-ENC a client cryptogram determines both nonces, and it differs
      from the server cryptogram unless the nonces coincide. */
  lemma {:induction false} CryptogramsBind(c: Cipher, enc: Block, a: Nonce, b: Nonce, a': Nonce, b': Nonce)
    requires Inverts(c)
    ensures ClientCryptogram(c, enc, a, b) == ClientCryptogram(c, enc, a', b') <==> a == a' && b == b'
    ensures ClientCryptogram(c, enc, a, b) == ServerCryptogram(c, enc, a', b') <==> a == b' && b == a'
  {
    if c.encrypt(enc, a + b) == c.encrypt(enc, a' + b') {
      EncryptInjective(c, enc, a + b, a' + b');
      Halves(a, b, a', b');
    }
    if c.encrypt(enc, a + b) == c.encrypt(enc, b' + a') {
      EncryptInjective(c, enc, a + b, b' + a');
      Halves(a, b, b', a');
    }
  }

  lemma {:induction false} Halves(a: Nonce, b: Nonce, a': Nonce, b': Nonce)
    requires a + b == a' + b'
    ensures a == a' && b == b'
  {
    assert a == (a + b)[..RND_LEN] && b == (a + b)[RND_LEN..];
    assert a' == (a' + b')[..RND_LEN] && b' == (a' + b')[RND_LEN..];
  }
}
