/** Client and server, run against each other over lossless channels, both succeed and end up with the same streams. */
module HandshakeAgreement {
  import opened Bytes
  import opened HandshakeBlock
  import opened Handshake
  import DH = DiffieHellman

  /** One client, one server, and the functions and tables they share. */
  datatype Pairing = Pairing(s: Suite, c: Client, v: Local) {
    ghost predicate Valid() { s.Valid() && DH.GoodPrime(s.p) }
  }

  // ---------------------------------------------------------- opening blocks

  /** An opening block can always be made, and its reader finds in it what its writer put there. */
  lemma OpeningIsReadable(s: Suite, mine: Local, version: Quad, signs: bool, encrypted: bool, scheme: Scheme,
                          key: Bytes)
    requires s.Valid() && DH.GoodPrime(s.p)
    ensures var o := Opening(s, mine, version, signs, encrypted, scheme, key);
            && o.Some?
            && o.value[4..8] == version
            && (signs ==> VerifyDigest(DigestOffset(scheme, o.value), o.value, key, s.hmac))
            && (signs && encrypted ==>
                  && DhOffset(scheme, o.value) == DhOffset(scheme, Raw(mine, version))
                  && KeyAt(o.value, DhOffset(scheme, o.value)) == DH.PublicKey(SecretExponent(s, mine), s.p))
  {
    hide DhOffset, DigestOffset, Signed, WithKey, VerifyDigest, DH.PublicKey, SecretExponent, DH.Pow;
    var raw := Raw(mine, version);
    assert raw[4..8] == version;
    if signs && encrypted {
      GoodPrimeGivesKey(s, mine);
      var pub := WrittenKey(s, mine).value;
      SignThenVerify(scheme, raw, pub, key, s.hmac);
      var b := Signed(scheme, WithKey(scheme, raw, pub), key, s.hmac);
      assert b[4..8] == b[..8][4..8] == raw[..8][4..8];
    } else if signs {
      SignedVerifies(scheme, raw, key, s.hmac);
      var b := Signed(scheme, raw, key, s.hmac);
      assert b[4..8] == b[..8][4..8] == raw[..8][4..8];
    }
  }

  lemma GoodPrimeGivesKey(s: Suite, mine: Local)
    requires s.Valid() && DH.GoodPrime(s.p)
    ensures WrittenKey(s, mine) == Some(DH.PublicKey(SecretExponent(s, mine), s.p))
  {
    hide DH.Pow, DH.PowMod, DH.PublicKey, SecretExponent;
    DH.ByteLengthExact(s.p, DH_LENGTH);
    DH.ByteLengthExact(s.p, 1);
    assert DH.Pow(0x100, 1) == 0x100 by { OneStep(); }
  }

  lemma OneStep()
    ensures DH.Pow(0x100, 1) == 0x100
  {
  }

  // ------------------------------------------------------------- the script

  function ClientBlock(q: Pairing): Block
    requires q.s.Valid()
  {
    match ClientHello(q.s, q.c)
    case None => Raw(q.c.mine, q.c.Version())
    case Some(b) => b
  }

  /** The server's decision about this client: type 6 is answered as type 8, type 3 stays type 3. */
  function Choice(q: Pairing): ServerChoice {
    if q.c.encrypted then ServerChoice(8, true, true) else ServerChoice(3, false, q.c.Signs())
  }

  function ServerBlock(q: Pairing): Block
    requires q.s.Valid()
  {
    match ServerHello(q.s, q.v, Choice(q))
    case None => Raw(q.v, Choice(q).Version())
    case Some(b) => b
  }

  function Secret(q: Pairing): Bytes
    requires q.s.Valid()
  {
    match DH.SharedSecret(SecretExponent(q.s, q.c.mine), DH.PublicKey(SecretExponent(q.s, q.v), q.s.p), q.s.p)
    case None => []
    case Some(x) => x
  }

  /** The stream from client to server, and the one back. */
  function Upstream(q: Pairing): Rc4
    requires q.s.Valid()
  {
    Rc4(q.s.hmac(DH.PublicKey(SecretExponent(q.s, q.v), q.s.p), Secret(q))[..16], 0)
  }

  function Downstream(q: Pairing): Rc4
    requires q.s.Valid()
  {
    Rc4(q.s.hmac(DH.PublicKey(SecretExponent(q.s, q.c.mine), q.s.p), Secret(q))[..16], 0)
  }

  function ClientReply(q: Pairing): Block
    requires q.s.Valid()
  {
    if !q.c.Signs() then ServerBlock(q)
    else
      var d := DigestAt(ServerBlock(q), DigestOffset(q.c.Scheme(), ServerBlock(q)));
      WithSignature(q.c.filler, Signature(q.s, Choice(q).kind, q.c.filler, d, q.s.fpKey))
  }

  function ServerReply(q: Pairing): Block
    requires q.s.Valid()
  {
    if !q.c.Signs() then ClientBlock(q)
    else
      var d := DigestAt(ClientBlock(q), DigestOffset(q.c.Scheme(), ClientBlock(q)));
      WithSignature(ClientBlock(q), Signature(q.s, Choice(q).kind, ClientBlock(q), d, q.s.fmsKey))
  }

  function ClientKeys(q: Pairing): Option<Keys>
    requires q.s.Valid()
  {
    if q.c.encrypted then Some(Keys(Downstream(q), Upstream(q))) else None
  }

  function ServerKeys(q: Pairing): Option<Keys>
    requires q.s.Valid()
  {
    if q.c.encrypted then Some(Keys(Upstream(q), Downstream(q))) else None
  }

  // ----------------------------------------------- each step follows the script

  lemma ClientOpens(q: Pairing)
    requires q.Valid()
    ensures ClientHello(q.s, q.c) == Some(ClientBlock(q))
    ensures Choose(q.c.Type(), ClientBlock(q)) == Some(Choice(q))
  {
    hide DhOffset, DigestOffset, DH.PublicKey, SecretExponent, Opening, VerifyDigest, KeyAt;
    OpeningIsReadable(q.s, q.c.mine, q.c.Version(), q.c.Signs(), q.c.encrypted, q.c.Scheme(), FPKey30(q.s));
    assert ClientBlock(q)[4] == ClientBlock(q)[4..8][0] == q.c.Version()[0];
  }

  lemma ServerOpens(q: Pairing)
    requires q.Valid()
    ensures ServerHello(q.s, q.v, Choice(q)) == Some(ServerBlock(q))
    ensures q.c.Signs() ==> ServerBlock(q)[4] == 3
  {
    hide DhOffset, DigestOffset, DH.PublicKey, SecretExponent, Opening, VerifyDigest, KeyAt;
    var choice := Choice(q);
    OpeningIsReadable(q.s, q.v, choice.Version(), choice.signs, choice.encrypted, choice.Scheme(), FMSKey36(q.s));
    assert ServerBlock(q)[4] == ServerBlock(q)[4..8][0] == choice.Version()[0];
  }

  /** Both sides derive `Secret(q)` from the key they find in the other's block. */
  lemma SecretIsShared(q: Pairing)
    requires q.Valid()
    ensures var a, b := SecretExponent(q.s, q.c.mine), SecretExponent(q.s, q.v);
            && DH.SharedSecret(a, DH.PublicKey(b, q.s.p), q.s.p) == Some(Secret(q))
            && DH.SharedSecret(b, DH.PublicKey(a, q.s.p), q.s.p) == Some(Secret(q))
  {
    hide DH.PublicKey, SecretExponent, DH.SharedSecret, DH.Pow;
    DH.ExchangeAgrees(SecretExponent(q.s, q.c.mine), SecretExponent(q.s, q.v), q.s.p);
  }

  /** The server's block verifies at the first position tried, and the client's answer is the script's. */
  lemma ClientAnswers(q: Pairing)
    requires q.Valid()
    ensures ClientAnswer(q.s, q.c, ClientBlock(q), Choice(q).kind, ServerBlock(q))
         == Some(Answer(q.c.Signs(), ClientReply(q), ClientKeys(q)))
  {
    hide DhOffset, DigestOffset, DH.PublicKey, SecretExponent, VerifyDigest, KeyAt, Opening, Signature, DH.SharedSecret,
      Secret, Raw;
    var choice := Choice(q);
    ClientOpens(q);
    ServerOpens(q);
    OpeningIsReadable(q.s, q.c.mine, q.c.Version(), q.c.Signs(), q.c.encrypted, q.c.Scheme(), FPKey30(q.s));
    OpeningIsReadable(q.s, q.v, choice.Version(), choice.signs, choice.encrypted, choice.Scheme(), FMSKey36(q.s));
    SecretIsShared(q);
  }

  lemma ServerAnswers(q: Pairing)
    requires q.Valid()
    ensures ServerAnswer(q.s, q.v, Choice(q), ServerBlock(q), ClientBlock(q))
         == Some(Answer(q.c.Signs(), ServerReply(q), ServerKeys(q)))
  {
    hide DhOffset, DigestOffset, DH.PublicKey, SecretExponent, VerifyDigest, KeyAt, Opening, Signature, DH.SharedSecret,
      Secret, Raw;
    var choice := Choice(q);
    ClientOpens(q);
    ServerOpens(q);
    OpeningIsReadable(q.s, q.c.mine, q.c.Version(), q.c.Signs(), q.c.encrypted, q.c.Scheme(), FPKey30(q.s));
    OpeningIsReadable(q.s, q.v, choice.Version(), choice.signs, choice.encrypted, choice.Scheme(), FMSKey36(q.s));
    SecretIsShared(q);
  }

  /** A signature only depends on the part of the block that it does not overwrite. */
  lemma SignatureIgnoresItself(s: Suite, kind: byte, body: Block, sig: Digest, d: Digest, key: Bytes)
    requires s.Valid()
    ensures Signature(s, kind, WithSignature(body, sig), d, key) == Signature(s, kind, body, d, key)
  {
    hide Seal;
    assert WithSignature(body, sig)[..SIG_SIZE - DIGEST_LENGTH] == body[..SIG_SIZE - DIGEST_LENGTH];
  }

  lemma BothFinish(q: Pairing)
    requires q.Valid()
    ensures ClientFinish(q.s, q.c, ClientBlock(q), Choice(q).kind, Answer(q.c.Signs(), ClientReply(q), ClientKeys(q)),
                         ServerReply(q))
         == Succeeded(Advanced(ClientKeys(q)))
    ensures ServerFinish(q.s, Choice(q), ServerBlock(q), Answer(q.c.Signs(), ServerReply(q), ServerKeys(q)),
                         ClientReply(q))
         == Succeeded(Advanced(ServerKeys(q)))
  {
    hide DigestOffset, Signature, ClientBlock, ServerBlock, Upstream, Downstream;
    if q.c.Signs() {
      var kind := Choice(q).kind;
      var dc := DigestAt(ClientBlock(q), DigestOffset(q.c.Scheme(), ClientBlock(q)));
      SignatureIgnoresItself(q.s, kind, ClientBlock(q), Signature(q.s, kind, ClientBlock(q), dc, q.s.fmsKey), dc,
                             q.s.fmsKey);
      var ds := DigestAt(ServerBlock(q), DigestOffset(q.c.Scheme(), ServerBlock(q)));
      SignatureIgnoresItself(q.s, kind, q.c.filler, Signature(q.s, kind, q.c.filler, ds, q.s.fpKey), ds, q.s.fpKey);
    }
  }

  // ------------------------------------------------------ the whole handshake

  /** Everything the client sends, and everything the server sends. */
  function ClientBytes(q: Pairing): (r: Bytes)
    requires q.s.Valid()
    ensures |r| == 1 + 2 * SIG_SIZE
  {
    [q.c.Type()] + ClientBlock(q) + ClientReply(q)
  }

  function ServerBytes(q: Pairing): (r: Bytes)
    requires q.s.Valid()
    ensures |r| == 1 + 2 * SIG_SIZE
  {
    [Choice(q).kind] + ServerBlock(q) + ServerReply(q)
  }

  /** Both sides hold streams exactly if the connection is encrypted, and then they are crossed, equal and in step. */
  predicate Crossed(client: Option<Keys>, server: Option<Keys>, encrypted: bool) {
    if encrypted then
      && client.Some? && server.Some?
      && client.value.output == server.value.input
      && client.value.input == server.value.output
      && client.value.output.used == client.value.input.used == SIG_SIZE
    else client.None? && server.None?
  }

  lemma ScriptKeysCross(q: Pairing)
    requires q.Valid()
    ensures Crossed(Advanced(ClientKeys(q)), Advanced(ServerKeys(q)), q.c.encrypted)
  {
  }

  /** What `InitRC4Encryption` makes of the two blocks: each side, from its own exponent, its own block and the key it
      finds in the other's, derives the streams that the other derives, the other way round. */
  lemma KeysCross(q: Pairing)
    requires q.Valid() && q.c.encrypted
    ensures var scheme, up, down := q.c.Scheme(), ClientBlock(q), ServerBlock(q);
            var client := SessionKeys(q.s, q.c.mine, down, DhOffset(scheme, down), up,
                                      DhOffset(scheme, Raw(q.c.mine, q.c.Version())));
            var server := SessionKeys(q.s, q.v, up, DhOffset(scheme, up), down,
                                      DhOffset(scheme, Raw(q.v, Choice(q).Version())));
            && client.Some? && server.Some?
            && client.value.output == server.value.input && client.value.input == server.value.output
  {
    hide DhOffset, DigestOffset, DH.PublicKey, SecretExponent, VerifyDigest, KeyAt, Opening, DH.SharedSecret, Secret,
      Raw;
    var choice := Choice(q);
    ClientOpens(q);
    ServerOpens(q);
    OpeningIsReadable(q.s, q.c.mine, q.c.Version(), q.c.Signs(), q.c.encrypted, q.c.Scheme(), FPKey30(q.s));
    OpeningIsReadable(q.s, q.v, choice.Version(), choice.signs, choice.encrypted, choice.Scheme(), FMSKey36(q.s));
    SecretIsShared(q);
  }

  /** In every mode, for all randomness and all secret exponents: fed each other's bytes, `HandShake` and `SHandShake`
      write exactly those bytes, both return TRUE, and their session streams are crossed and equal. */
  lemma HandshakeSucceeds(q: Pairing)
    requires q.Valid()
    ensures ClientRun(q.s, q.c, ServerBytes(q)) == Run(ClientBytes(q), Succeeded(Advanced(ClientKeys(q))))
    ensures ServerRun(q.s, q.v, ClientBytes(q)) == Run(ServerBytes(q), Succeeded(Advanced(ServerKeys(q))))
    ensures Crossed(Advanced(ClientKeys(q)), Advanced(ServerKeys(q)), q.c.encrypted)
  {
    hide ClientBlock, ServerBlock, ClientReply, ServerReply, ClientHello, ServerHello, ClientAnswer, ServerAnswer,
      ClientFinish, ServerFinish, Choose, Choice, ClientKeys, ServerKeys, Advanced;
    ScriptKeysCross(q);
    ClientOpens(q);
    ServerOpens(q);
    ClientAnswers(q);
    ServerAnswers(q);
    BothFinish(q);
    var up, down := ClientBytes(q), ServerBytes(q);
    assert up[1..1 + SIG_SIZE] == ClientBlock(q) && up[1 + SIG_SIZE..1 + 2 * SIG_SIZE] == ClientReply(q);
    assert down[1..1 + SIG_SIZE] == ServerBlock(q) && down[1 + SIG_SIZE..1 + 2 * SIG_SIZE] == ServerReply(q);
    assert up[1 + SIG_SIZE..][..SIG_SIZE] == ClientReply(q) && down[1 + SIG_SIZE..][..SIG_SIZE] == ServerReply(q);
  }

  /** Both sides store the same SWF verification token, made from the server's first block, exactly if there is a player
      file. */
  lemma TokensAgree(q: Pairing, upRoom: nat, downRoom: nat)
    requires q.Valid() && upRoom >= 1 + SIG_SIZE && downRoom >= 1 + SIG_SIZE
    ensures var token := if q.c.swf.size != 0 then Some(SwfToken(q.s, q.c.swf, ServerBlock(q))) else None;
            && ClientToken(q.s, q.c, ServerBytes(q), upRoom) == token
            && ServerToken(q.s, q.v, q.c.swf, ClientBytes(q), downRoom) == token
  {
    hide ClientBlock, ServerBlock, ClientReply, ServerReply, Choose, VerifyDigest, DigestOffset, DhOffset, SwfToken,
      Opening, KeyAt, DH.PublicKey, SecretExponent, Raw;
    var choice, up, down := Choice(q), ClientBytes(q), ServerBytes(q);
    ClientOpens(q);
    ServerOpens(q);
    OpeningIsReadable(q.s, q.c.mine, q.c.Version(), q.c.Signs(), q.c.encrypted, q.c.Scheme(), FPKey30(q.s));
    OpeningIsReadable(q.s, q.v, choice.Version(), choice.signs, choice.encrypted, choice.Scheme(), FMSKey36(q.s));
    assert up[1..1 + SIG_SIZE] == ClientBlock(q) && down[1..1 + SIG_SIZE] == ServerBlock(q);
  }

  // ------------------------------------------------- against any peer whatsoever

  /** The signature that the peer's second message must carry, before it is sealed. */
  function PlainSignature(s: Suite, own: Block, ownDigestPos: nat, second: Block, theirKey: Bytes): Digest
    requires ownDigestPos + DIGEST_LENGTH <= SIG_SIZE
  {
    s.hmac(second[..SIG_SIZE - DIGEST_LENGTH], s.hmac(DigestAt(own, ownDigestPos), theirKey))
  }

  /** Sealing hides nothing from the last check and lets nothing else through: a signed end succeeds exactly if the last
      32 bytes, unsealed, are the HMAC of the bytes before them. */
  lemma FinishChecksPlainSignature(s: Suite, kind: byte, own: Block, ownDigestPos: nat, a: Answer, second: Block,
                                   theirKey: Bytes)
    requires s.Valid() && ownDigestPos + DIGEST_LENGTH <= SIG_SIZE && a.signs
    ensures var digestKey := s.hmac(DigestAt(own, ownDigestPos), theirKey);
            (Finish(s, kind, own, ownDigestPos, a, second, theirKey).Succeeded? <==>
             Unseal(s, kind, digestKey, second[SIG_SIZE - DIGEST_LENGTH..])
               == PlainSignature(s, own, ownDigestPos, second, theirKey))
  {
    hide Seal, Unseal;
    var digestKey := s.hmac(DigestAt(own, ownDigestPos), theirKey);
    SealBijection(s, kind, digestKey, second[SIG_SIZE - DIGEST_LENGTH..]);
    SealBijection(s, kind, digestKey, PlainSignature(s, own, ownDigestPos, second, theirKey));
  }

  /** Whatever the server sends: a client that succeeds holds session streams exactly if it asked for encryption and the
      server did not answer as a plain one, and then they are in step at 1536 bytes. */
  lemma ClientStreams(s: Suite, c: Client, input: Bytes)
    requires s.Valid() && ClientRun(s, c, input).outcome.Succeeded?
    ensures |input| >= 1 + 2 * SIG_SIZE
    ensures var keys := ClientRun(s, c, input).outcome.keys;
            && (keys.Some? <==> c.encrypted && !(input[0] == 3 && input[5] == 0))
            && (keys.Some? ==> keys.value.input.used == keys.value.output.used == SIG_SIZE)
  {
    hide ClientHello, FindScheme, DigestOffset, DhOffset, Signature, DH.SharedSecret, SecretExponent, KeyAt, DigestAt,
      Raw;
    assert input[1..1 + SIG_SIZE][4] == input[5];
  }

  /** Whatever the client sends: a server that succeeds holds session streams exactly if the client opened with type 6
      or 8. */
  lemma ServerStreams(s: Suite, mine: Local, input: Bytes)
    requires s.Valid() && ServerRun(s, mine, input).outcome.Succeeded?
    ensures |input| >= 1 + 2 * SIG_SIZE
    ensures var keys := ServerRun(s, mine, input).outcome.keys;
            && (keys.Some? <==> input[0] == 6 || input[0] == 8)
            && (keys.Some? ==> keys.value.input.used == keys.value.output.used == SIG_SIZE)
  {
    hide ServerHello, FindScheme, DigestOffset, DhOffset, Signature, DH.SharedSecret, SecretExponent, KeyAt, DigestAt,
      Raw;
  }
}
