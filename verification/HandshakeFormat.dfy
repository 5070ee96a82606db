/** What goes over the wire in a handshake, byte by byte, with all positions, lengths and constants written out. */
module HandshakeFormat {
  import opened Bytes
  import opened HandshakeBlock
  import opened Handshake
  import Words
  import Xtea
  import Blowfish
  import DH = DiffieHellman

  // ---------------------------------------------------------- opening blocks

  /** The 32 bytes at `pos` are the HMAC of the other 1504 bytes under `key`. */
  predicate DigestAtPosition(b: Bytes, pos: nat, key: Bytes, hmac: Hmac) {
    |b| == 1536 && pos + 32 <= 1536 && b[pos..pos + 32] == hmac(b[..pos] + b[pos + 32..], key)
  }

  predicate InRegion(k: nat, at: Option<nat>, len: nat) { at.Some? && at.value <= k < at.value + len }

  /** An opening block: clock, version, and random bytes, except where the digest and the public key are. */
  predicate IsOpening(b: Bytes, mine: Local, version: Quad, digest: Option<nat>, key: Option<nat>) {
    && |b| == 1536 && b[..4] == mine.uptime && b[4..8] == version
    && forall k :: 8 <= k < 1536 && !InRegion(k, digest, 32) && !InRegion(k, key, 128) ==> b[k] == mine.random[k - 8]
  }

  lemma OpeningOpened(s: Suite, mine: Local, version: Quad, signs: bool, encrypted: bool, scheme: Scheme, key: Bytes)
    requires s.Valid() && Opening(s, mine, version, signs, encrypted, scheme, key).Some? && (encrypted ==> signs)
    ensures var b := Opening(s, mine, version, signs, encrypted, scheme, key).value;
            var digest, dh := DigestOffset(scheme, b), DhOffset(scheme, b);
            && IsOpening(b, mine, version, if signs then Some(digest) else None, if encrypted then Some(dh) else None)
            && (signs ==> DigestAtPosition(b, digest, key, s.hmac))
            && (encrypted ==> DH.Decode(b[dh..dh + 128]) == DH.PowMod(2, SecretExponent(s, mine), s.p))
  {
    hide DhOffset, DigestOffset, CalculateDigest, SecretExponent, DH.Pow, DH.Decode, DH.Encode, DH.ExponentBits;
    var raw := Raw(mine, version);
    assert raw[..4] == mine.uptime && raw[4..8] == version;
    if signs && encrypted {
      var pub := WrittenKey(s, mine).value;
      SignThenVerify(scheme, raw, pub, key, s.hmac);
      KeyKeepsPositions(scheme, raw, pub);
      var keyed := WithKey(scheme, raw, pub);
      assert Signed(scheme, keyed, key, s.hmac)[..8] == raw[..8];
      DH.DecodeEncode(DH.PowMod(DH.G, SecretExponent(s, mine), s.p), 128);
      VerifyOpened(scheme, Signed(scheme, keyed, key, s.hmac), key, s.hmac);
      FirstEight(raw, Signed(scheme, keyed, key, s.hmac));
    } else if signs {
      SignedVerifies(scheme, raw, key, s.hmac);
      VerifyOpened(scheme, Signed(scheme, raw, key, s.hmac), key, s.hmac);
      FirstEight(raw, Signed(scheme, raw, key, s.hmac));
    }
  }

  lemma FirstEight(raw: Block, b: Block)
    requires b[..8] == raw[..8]
    ensures b[..4] == raw[..4] && b[4..8] == raw[4..8]
  {
    assert b[..8][..4] == raw[..8][..4] && b[..8][4..] == raw[..8][4..];
  }

  lemma VerifyOpened(scheme: Scheme, b: Block, key: Bytes, hmac: Hmac)
    requires VerifyDigest(DigestOffset(scheme, b), b, key, hmac)
    ensures DigestAtPosition(b, DigestOffset(scheme, b), key, hmac)
  {
    hide DigestOffset;
  }

  /** The client's first message: 6 if encrypted, otherwise 3, and a block whose digest is keyed by the first 30 bytes
      of the player key. */
  lemma ClientHelloFormat(s: Suite, c: Client, input: Bytes)
    requires s.Valid() && ClientHello(s, c).Some?
    ensures var written := ClientRun(s, c, input).written;
            |written| >= 1537 && written[0] == (if c.encrypted then 6 else 3)
              && written[1..1537] == ClientHello(s, c).value
    ensures |s.fpKey[..30]| == 30
    ensures var b := ClientHello(s, c).value;
            if c.encrypted then
              && IsOpening(b, c.mine, [128, 0, 3, 2], Some(GetDigestOffset2(b).value), Some(GetDHOffset2(b).value))
              && DigestAtPosition(b, GetDigestOffset2(b).value, s.fpKey[..30], s.hmac)
              && DH.Decode(b[GetDHOffset2(b).value..GetDHOffset2(b).value + 128])
                 == DH.PowMod(2, SecretExponent(s, c.mine), s.p)
            else if c.swf.size != 0 then
              && IsOpening(b, c.mine, [10, 0, 45, 2], Some(GetDigestOffset1(b).value), None)
              && DigestAtPosition(b, GetDigestOffset1(b).value, s.fpKey[..30], s.hmac)
            else IsOpening(b, c.mine, [0, 0, 0, 0], None, None)
  {
    hide Opening, ClientRest, DH.Decode, DH.PowMod, SecretExponent, IsOpening, DigestAtPosition;
    OpeningOpened(s, c.mine, c.Version(), c.Signs(), c.encrypted, c.Scheme(), FPKey30(s));
  }

  /** The server's first message: 3 for 3, 8 for a client of version 128, otherwise the client's own type; and a block
      whose digest is keyed by the first 36 bytes of the server key. */
  lemma ServerHelloFormat(s: Suite, mine: Local, input: Bytes)
    requires s.Valid() && |input| >= 1537 && |ServerRun(s, mine, input).written| > 0
    ensures var written := ServerRun(s, mine, input).written;
            var encrypted, signs := input[0] == 6 || input[0] == 8, input[0] != 3 || input[5] != 0;
            && |written| >= 1537 && (encrypted || input[0] == 3)
            && written[0] == (if input[0] == 3 then 3 else if input[5] == 128 then 8 else input[0])
            && var b: Block := written[1..1537];
            if encrypted then
              && IsOpening(b, mine, [3, 5, 1, 1], Some(GetDigestOffset2(b).value), Some(GetDHOffset2(b).value))
              && DigestAtPosition(b, GetDigestOffset2(b).value, s.fmsKey[..36], s.hmac)
              && DH.Decode(b[GetDHOffset2(b).value..GetDHOffset2(b).value + 128])
                 == DH.PowMod(2, SecretExponent(s, mine), s.p)
            else if signs then
              && IsOpening(b, mine, [3, 5, 1, 1], Some(GetDigestOffset1(b).value), None)
              && DigestAtPosition(b, GetDigestOffset1(b).value, s.fmsKey[..36], s.hmac)
            else IsOpening(b, mine, [0, 0, 0, 0], None, None)
  {
    hide Opening, ServerRest, DH.Decode, DH.PowMod, SecretExponent, IsOpening, DigestAtPosition;
    assert input[1..1537][4] == input[5];
    var choice := Choose(input[0], input[1..1537]).value;
    OpeningOpened(s, mine, choice.Version(), choice.signs, choice.encrypted, choice.Scheme(), FMSKey36(s));
    assert ServerRun(s, mine, input).written[1..1537] == ServerHello(s, mine, choice).value;
  }

  // ----------------------------------------------------------- second messages

  function Octet(x: Digest, j: nat): Words.Octets
    requires j < 4
  {
    x[8 * j..8 * j + 8]
  }

  /** Which cipher seals a signature, block by block: 8 bytes under the key that byte `8 * j` of the digest selects. */
  lemma SealFormat(s: Suite, kind: byte, digest: Digest, x: Digest, j: nat)
    requires s.Valid() && j < 4
    ensures var k := digest[8 * j] % 15;
            Octet(Seal(s, kind, digest, x), j) ==
            if kind == 8 then Xtea.Encrypt(Octet(x, j), s.xteaKeys[k])
            else if kind == 9 then Blowfish.EncryptOctets(Octet(x, j), s.tables, s.blowfishKeys[k])
            else Octet(x, j)
  {
    hide Seal, Xtea.Encrypt, Blowfish.EncryptOctets;
    SealByBlocks(s, kind, digest, x);
    assert 8 * j < 32 && (8 * j) % 8 == 0;
  }

  /** A signed message: 1504 bytes of a body, and 32 bytes that are, unsealed, their HMAC under a key that is itself the
      HMAC of a digest. */
  predicate IsSigned(s: Suite, kind: byte, message: Bytes, body: Block, digest: Bytes, key: Bytes)
    requires s.Valid()
  {
    && |message| == 1536 && message[..1504] == body[..1504]
    && Unseal(s, kind, s.hmac(digest, key), message[1504..1536]) == s.hmac(body[..1504], s.hmac(digest, key))
  }

  /** The streams of one side: the 16-byte keys are the HMACs of the two public keys under the shared secret, the peer's
      for what is sent, our own for what is received. */
  ghost predicate AreStreams(s: Suite, keys: Keys, secret: Bytes, mine: Local, peerKey: Bytes, ownKey: Bytes)
    requires s.Valid()
  {
    && IsSecret(s, secret, mine, peerKey)
    && keys.output == Rc4(s.hmac(peerKey, secret)[..16], 0) && keys.input == Rc4(s.hmac(ownKey, secret)[..16], 0)
  }

  /** The secret is the peer's number to the power of our exponent. */
  ghost predicate IsSecret(s: Suite, secret: Bytes, mine: Local, peerKey: Bytes)
    requires s.Valid()
  {
    && |secret| == 128
    && (DH.FitsKey(s.p) ==> DH.Decode(secret) == DH.PowMod(DH.Decode(peerKey), SecretExponent(s, mine), s.p))
  }

  ghost predicate HasStreams(s: Suite, keys: Keys, mine: Local, peerKey: Bytes, ownKey: Bytes)
    requires s.Valid()
  {
    exists secret :: AreStreams(s, keys, secret, mine, peerKey, ownKey)
  }

  lemma SecretOpened(s: Suite, mine: Local, peerKey: Bytes)
    requires s.Valid() && DH.SharedSecret(SecretExponent(s, mine), peerKey, s.p).Some?
    ensures IsSecret(s, DH.SharedSecret(SecretExponent(s, mine), peerKey, s.p).value, mine, peerKey)
  {
    hide DH.Pow, SecretExponent, DH.Encode, DH.Decode;
    var x := DH.PowMod(DH.Decode(peerKey), SecretExponent(s, mine), s.p);
    if DH.FitsKey(s.p) {
      DH.DecodeEncode(x, 128);
    }
  }

  /** What a signed answer consists of, when the peer's digest has verified under some scheme. */
  ghost predicate IsAnswer(s: Suite, mine: Local, kind: byte, encrypted: bool, scheme: Scheme, peer: Block,
                           theirKey: Bytes, own: Block, ownPos: nat, body: Block, ourKey: Bytes, a: Answer)
    requires s.Valid() && ownPos + 128 <= 1536
  {
    var digest := if scheme.Scheme1? then GetDigestOffset1(peer).value else GetDigestOffset2(peer).value;
    var dh := if scheme.Scheme1? then GetDHOffset1(peer).value else GetDHOffset2(peer).value;
    && DigestAtPosition(peer, digest, theirKey, s.hmac)
    && a.signs && IsSigned(s, kind, a.reply, body, peer[digest..digest + 32], ourKey)
    && (a.keys.Some? <==> encrypted)
    && (encrypted ==> HasStreams(s, a.keys.value, mine, peer[dh..dh + 128], own[ownPos..ownPos + 128]))
  }

  lemma SignedAnswerOpened(s: Suite, mine: Local, kind: byte, encrypted: bool, expected: Scheme, peer: Block,
                           theirKey: Bytes, own: Block, ownPos: nat, body: Block, ourKey: Bytes)
                             returns (scheme: Scheme)
    requires s.Valid() && ownPos + 128 <= 1536
    requires SignedAnswer(s, mine, kind, encrypted, expected, peer, theirKey, own, ownPos, body, ourKey).Some?
    ensures IsAnswer(s, mine, kind, encrypted, scheme, peer, theirKey, own, ownPos, body, ourKey,
                     SignedAnswer(s, mine, kind, encrypted, expected, peer, theirKey, own, ownPos, body, ourKey).value)
    ensures scheme == if DigestAtPosition(peer, DigestOffset(expected, peer), theirKey, s.hmac) then expected
                      else expected.Other()
  {
    hide Seal, Unseal, SecretExponent, DH.Pow, DH.Decode, DH.SharedSecret, DH.FitsKey, GetDigestOffset1,
      GetDigestOffset2, GetDHOffset1, GetDHOffset2;
    scheme := FindScheme(expected, peer, theirKey, s.hmac).value;
    var a := SignedAnswer(s, mine, kind, encrypted, expected, peer, theirKey, own, ownPos, body, ourKey).value;
    var digest := DigestOffset(scheme, peer);
    var digestKey := s.hmac(peer[digest..digest + 32], ourKey);
    SealBijection(s, kind, digestKey, s.hmac(body[..1504], digestKey));
    assert a.reply[1504..1536] == a.reply[1504..];
    if encrypted {
      var peerKey := KeyAt(peer, DhOffset(scheme, peer));
      SecretOpened(s, mine, peerKey);
      var secret := DH.SharedSecret(SecretExponent(s, mine), peerKey, s.p).value;
      assert AreStreams(s, a.keys.value, secret, mine, peerKey, KeyAt(own, ownPos));
    }
  }

  /** The client's second message: to a server that answers as a plain one, or without a player file or encryption, the
      server's own block; otherwise random bytes, signed with the whole player key of 62 bytes over the server's digest,
      which has verified under the first 36 bytes of the server key. */
  lemma ClientAnswerFormat(s: Suite, c: Client, hello: Block, kind: byte, server: Block) returns (scheme: Scheme)
    requires s.Valid() && ClientAnswer(s, c, hello, kind, server).Some?
    ensures var a := ClientAnswer(s, c, hello, kind, server).value;
            var ownPos := if c.encrypted then GetDHOffset2(Raw(c.mine, [128, 0, 3, 2])).value else 772;
            if (!c.encrypted && c.swf.size == 0) || (kind == 3 && server[4] == 0) then a == Answer(false, server, None)
            else
              && |s.fpKey| == 62
              && IsAnswer(s, c.mine, kind, c.encrypted, scheme, server, s.fmsKey[..36], hello, ownPos, c.filler,
                          s.fpKey, a)
  {
    hide SignedAnswer, IsAnswer, GetDHOffset1, GetDHOffset2, Raw;
    scheme := Scheme1;
    if SignsTo(c, kind, server) {
      var ownPos := DhOffset(c.Scheme(), Raw(c.mine, c.Version()));
      scheme := SignedAnswerOpened(s, c.mine, kind, c.encrypted, c.Scheme(), server, FMSKey36(s), hello, ownPos,
                                   c.filler, s.fpKey);
      if !c.encrypted {
        UnencryptedAnswer(s, c.mine, kind, c.encrypted, scheme, server, FMSKey36(s), hello, ownPos, 772, c.filler,
                          s.fpKey, ClientAnswer(s, c, hello, kind, server).value);
      }
    }
  }

  lemma UnencryptedAnswer(s: Suite, mine: Local, kind: byte, encrypted: bool, scheme: Scheme, peer: Block,
                          theirKey: Bytes, own: Block, pos1: nat, pos2: nat, body: Block, ourKey: Bytes, a: Answer)
    requires s.Valid() && pos1 + 128 <= 1536 && pos2 + 128 <= 1536 && !encrypted
    requires IsAnswer(s, mine, kind, encrypted, scheme, peer, theirKey, own, pos1, body, ourKey, a)
    ensures IsAnswer(s, mine, kind, encrypted, scheme, peer, theirKey, own, pos2, body, ourKey, a)
  {
    hide DigestAtPosition, IsSigned, GetDigestOffset1, GetDigestOffset2, GetDHOffset1, GetDHOffset2;
  }

  /** The server's second message: the client's own block, signed with the whole server key of 68 bytes over the
      client's digest, which has verified under the first 30 bytes of the player key; unsigned if the client does not
      sign. */
  lemma ServerAnswerFormat(s: Suite, mine: Local, choice: ServerChoice, hello: Block, client: Block)
      returns (scheme: Scheme)
    requires s.Valid() && ServerAnswer(s, mine, choice, hello, client).Some?
    ensures var a := ServerAnswer(s, mine, choice, hello, client).value;
            var ownPos := if choice.encrypted then GetDHOffset2(Raw(mine, choice.Version())).value else 772;
            if !choice.signs then a == Answer(false, client, None)
            else
              && |s.fmsKey| == 68
              && IsAnswer(s, mine, choice.kind, choice.encrypted, scheme, client, s.fpKey[..30], hello, ownPos, client,
                          s.fmsKey, a)
  {
    hide SignedAnswer, IsAnswer, GetDHOffset1, GetDHOffset2, Raw;
    scheme := Scheme1;
    if choice.signs {
      var ownPos := DhOffset(choice.Scheme(), Raw(mine, choice.Version()));
      scheme := SignedAnswerOpened(s, mine, choice.kind, choice.encrypted, choice.Scheme(), client, FPKey30(s), hello,
                                   ownPos, client, s.fmsKey);
      if !choice.encrypted {
        UnencryptedAnswer(s, mine, choice.kind, choice.encrypted, scheme, client, FPKey30(s), hello, ownPos, 772,
                          client, s.fmsKey, ServerAnswer(s, mine, choice, hello, client).value);
      }
    }
  }

  /** When a signed client returns TRUE: the server's second message ends in the sealed HMAC of its first 1504 bytes,
      keyed by the HMAC of the client's own digest under the whole server key; and both streams have used 1536 bytes. */
  lemma ClientFinishFormat(s: Suite, c: Client, hello: Block, kind: byte, a: Answer, second: Block)
    requires s.Valid() && a.signs
    ensures var pos := if c.encrypted then GetDigestOffset2(hello).value else GetDigestOffset1(hello).value;
            var outcome := ClientFinish(s, c, hello, kind, a, second);
            && (outcome.Succeeded? <==> IsSigned(s, kind, second, second, hello[pos..pos + 32], s.fmsKey))
            && (outcome.Succeeded? ==> IsAdvanced(a.keys, outcome.keys))
  {
    FinishOpened(s, kind, hello, DigestOffset(c.Scheme(), hello), a, second, s.fmsKey);
  }

  lemma ServerFinishFormat(s: Suite, choice: ServerChoice, hello: Block, a: Answer, second: Block)
    requires s.Valid() && a.signs
    ensures var pos := if choice.encrypted then GetDigestOffset2(hello).value else GetDigestOffset1(hello).value;
            var outcome := ServerFinish(s, choice, hello, a, second);
            && (outcome.Succeeded? <==> IsSigned(s, choice.kind, second, second, hello[pos..pos + 32], s.fpKey))
            && (outcome.Succeeded? ==> IsAdvanced(a.keys, outcome.keys))
  {
    FinishOpened(s, choice.kind, hello, DigestOffset(choice.Scheme(), hello), a, second, s.fpKey);
  }

  /** The same streams, 1536 bytes further on. */
  predicate IsAdvanced(before: Option<Keys>, after: Option<Keys>) {
    if before.None? then after.None?
    else
      && after.Some?
      && after.value.input == Rc4(before.value.input.key, before.value.input.used + 1536)
      && after.value.output == Rc4(before.value.output.key, before.value.output.used + 1536)
  }

  lemma FinishOpened(s: Suite, kind: byte, own: Block, pos: nat, a: Answer, second: Block, key: Bytes)
    requires s.Valid() && a.signs && pos + 32 <= 1536
    ensures var outcome := Finish(s, kind, own, pos, a, second, key);
            && (outcome.Succeeded? <==> IsSigned(s, kind, second, second, own[pos..pos + 32], key))
            && (outcome.Succeeded? ==> IsAdvanced(a.keys, outcome.keys))
  {
    hide Seal, Unseal;
    var digestKey := s.hmac(own[pos..pos + 32], key);
    assert second[1504..1536] == second[1504..];
    SealBijection(s, kind, digestKey, second[1504..]);
    SealBijection(s, kind, digestKey, s.hmac(second[..1504], digestKey));
  }

  /** `SWFVerificationResponse`, byte by byte. */
  lemma TokenFormat(s: Suite, swf: Swf, server: Block)
    ensures var t := SwfToken(s, swf, server);
            && t[0] == 1 && t[1] == 1 && t[2..6] == s.int32(swf.size) && t[6..10] == s.int32(swf.size)
            && t[10..42] == s.hmac(swf.hash, server[1504..1536])
  {
    assert server[1504..1536] == server[1504..];
  }
}
