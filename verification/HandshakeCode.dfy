/** `HandShake` and `SHandShake` as they are written: buffers filled in place, early returns, and a connection that is
    read and written. */
module HandshakeCode {
  import opened Bytes
  import opened HandshakeBlock
  import opened Handshake
  import opened DH = DiffieHellman

  /** The part of `RTMP` that a handshake touches. `input` is all that the peer will still send; `room` is how many
      bytes the connection will still take before it breaks. */
  class Rtmp {
    var encrypted: bool        // Link.protocol & RTMP_FEATURE_ENC
    const swf: Swf             // Link.SWFSize and Link.SWFHash
    var swfResponse: Token     // Link.SWFVerificationResponse
    var rc4keyIn: Option<Rc4>
    var rc4keyOut: Option<Rc4>
    var input: Bytes
    var output: Bytes
    var room: nat

    constructor (encrypted: bool, swf: Swf, input: Bytes, room: nat)
      ensures this.encrypted == encrypted && this.swf == swf
      ensures this.input == input && output == [] && this.room == room
    {
      this.encrypted, this.swf, this.input, output, this.room := encrypted, swf, input, [], room;
      rc4keyIn, rc4keyOut, swfResponse := None, None, seq(42, _ => 0);
    }

    ghost predicate Holds(keys: Option<Keys>)
      reads this
    {
      match keys
      case None => rc4keyIn == None && rc4keyOut == None
      case Some(k) => rc4keyIn == Some(k.input) && rc4keyOut == Some(k.output)
    }

    /** Writes all of `data`, or fails when the connection breaks before that. */
    method WriteN(data: Bytes) returns (ok: bool)
      modifies this`output, this`room
      ensures ok <==> |data| <= old(room)
      ensures output == old(output) + Take(data, old(room)) && room == old(room) - |Take(data, old(room))|
    {
      ok := |data| <= room;
      output := output + Take(data, room);
      room := room - |Take(data, room)|;
    }

    /** Fills `buf`, or fails when the connection ends before that. */
    method ReadN(buf: array<byte>) returns (ok: bool)
      modifies this`input, buf
      ensures ok <==> buf.Length <= |old(input)|
      ensures ok ==> buf[..] == old(input)[..buf.Length] && input == old(input)[buf.Length..]
    {
      if |input| < buf.Length {
        return false;
      }
      CopyInto(buf, 0, input[..buf.Length]);
      input := input[buf.Length..];
      return true;
    }

    /** The SWF verification token, put together in its buffer. */
    method StoreToken(s: Suite, serversig: array<byte>)
      requires serversig.Length == SIG_SIZE
      modifies this`swfResponse
      ensures swfResponse == if swf.size != 0 then SwfToken(s, swf, serversig[..]) else old(swfResponse)
    {
      if swf.size != 0 {
        var response := new byte[42];
        CopyInto(response, 0, [1, 1]);
        CopyInto(response, 2, s.int32(swf.size));
        CopyInto(response, 6, s.int32(swf.size));
        CopyInto(response, 10, s.hmac(swf.hash, serversig[SIG_SIZE - DIGEST_LENGTH..]));
        assert serversig[SIG_SIZE - DIGEST_LENGTH..] == serversig[..][SIG_SIZE - DIGEST_LENGTH..];
        assert response[..] == SwfToken(s, swf, serversig[..]);
        swfResponse := response[..];
      }
    }
  }

  /** `CalculateDigest`; `digest` may lie inside `sig` itself. */
  method DigestInto(digestPos: nat, sig: array<byte>, key: Bytes, hmac: Hmac, digest: array<byte>, at: nat)
    requires sig.Length == SIG_SIZE && digestPos + DIGEST_LENGTH <= SIG_SIZE && at + DIGEST_LENGTH <= digest.Length
    modifies digest
    ensures digest[..] == Splice(old(digest[..]), at, CalculateDigest(digestPos, old(sig[..]), key, hmac))
  {
    var messageLen := SIG_SIZE - DIGEST_LENGTH;
    var message := new byte[messageLen];
    CopyInto(message, 0, sig[..digestPos]);
    CopyInto(message, digestPos, sig[digestPos + DIGEST_LENGTH..]);
    assert message[..] == Message(sig[..], digestPos);
    CopyInto(digest, at, hmac(message[..], key));
  }

  /** Clock, version and random bytes, then the public key and the digest. */
  method WriteOpening(s: Suite, mine: Local, version: Quad, signs: bool, encrypted: bool, scheme: Scheme, key: Bytes,
                      sig: array<byte>, dh: Mdh)
    returns (ok: bool, dhPos: nat, digestPos: nat)
    requires s.Valid() && sig.Length == SIG_SIZE && dh.Valid() && dh.p == s.p
    modifies sig, dh
    ensures var o := Opening(s, mine, version, signs, encrypted, scheme, key);
            && (ok <==> o.Some?)
            && (ok ==> sig[..] == o.value)
    ensures dhPos + DH_LENGTH <= SIG_SIZE && digestPos + DIGEST_LENGTH <= SIG_SIZE
    ensures ok && signs ==> digestPos == DigestOffset(scheme, sig[..])
    ensures ok && signs && encrypted
            ==> dhPos == DhOffset(scheme, Raw(mine, version)) && dh.HasKey(SecretExponent(s, mine))
  {
    hide DhOffset, DigestOffset, DH.Pow, DH.Exponent, DH.PowMod;
    dhPos, digestPos := 0, 0;
    CopyInto(sig, 0, mine.uptime);
    CopyInto(sig, 4, version);
    CopyInto(sig, 8, mine.random);
    ghost var raw := Raw(mine, version);
    assert sig[..] == raw;
    if signs {
      if encrypted {
        dhPos := DhOffset(scheme, sig[..]);
        ok := dh.GenerateKey(mine.draws);
        if !ok {
          return;
        }
        ok := dh.GetPublicKey(sig, dhPos);
        if !ok {
          return;
        }
        assert WrittenKey(s, mine) == Some(PublicKey(SecretExponent(s, mine), s.p));
        KeyKeepsPositions(scheme, raw, WrittenKey(s, mine).value);
      }
      ghost var h := sig[..];
      digestPos := DigestOffset(scheme, sig[..]);
      DigestInto(digestPos, sig, key, s.hmac, sig, digestPos);
      SignedVerifies(scheme, h, key, s.hmac);
    }
    return true, dhPos, digestPos;
  }

  /** The scheme under which the peer's digest verifies: the expected one is tried first. */
  method FindPeer(s: Suite, expected: Scheme, peer: array<byte>, theirKey: Bytes) returns (ok: bool, scheme: Scheme)
    requires s.Valid() && peer.Length == SIG_SIZE
    ensures FindScheme(expected, peer[..], theirKey, s.hmac) == if ok then Some(scheme) else None
  {
    hide DigestOffset, VerifyDigest;
    scheme := expected;
    var digestPos := DigestOffset(scheme, peer[..]);
    ok := VerifyDigest(digestPos, peer[..], theirKey, s.hmac);
    if !ok {
      scheme := scheme.Other();
      digestPos := DigestOffset(scheme, peer[..]);
      ok := VerifyDigest(digestPos, peer[..], theirKey, s.hmac);
    }
  }

  /** The signed half of both handshakes, once the peer's digest has verified under `scheme`: agree on the session keys,
      and sign `reply` in place. The client signs a buffer of its own; the server signs the client's block, so that
      `reply` is `peer`. */
  method SignAnswer(s: Suite, mine: Local, kind: byte, encrypted: bool, ghost expected: Scheme, scheme: Scheme,
                    peer: array<byte>, ghost theirKey: Bytes, own: array<byte>, ownPos: nat, reply: array<byte>,
                    ourKey: Bytes, dh: Mdh)
    returns (ok: bool, keys: Option<Keys>)
    requires s.Valid() && peer.Length == own.Length == reply.Length == SIG_SIZE && own != reply
    requires ownPos + DH_LENGTH <= SIG_SIZE && dh.p == s.p && FitsKey(s.p)
    requires encrypted ==> dh.HasKey(SecretExponent(s, mine))
    requires FindScheme(expected, peer[..], theirKey, s.hmac) == Some(scheme)
    modifies reply
    ensures var a := SignedAnswer(s, mine, kind, encrypted, expected, old(peer[..]), theirKey, own[..], ownPos,
                                  old(reply[..]), ourKey);
            && (ok <==> a.Some?)
            && (ok ==> a.value == Answer(true, reply[..], keys))
  {
    hide DhOffset, DigestOffset, VerifyDigest, Seal, DH.PublicKey, DH.Pow, DH.SharedSecret, DH.FitsKey, SecretExponent,
      FindScheme;
    keys := None;
    var digestPos := DigestOffset(scheme, peer[..]);
    if encrypted {
      var secretKey := new byte[DH_LENGTH];
      var dhPos := DhOffset(scheme, peer[..]);
      var peerKey := KeyAt(peer[..], dhPos);
      var len := dh.ComputeSharedSecret(peerKey, secretKey);
      if len < 0 {
        return false, None;
      }
      keys := Some(InitRC4Encryption(s, secretKey[..], peerKey, KeyAt(own[..], ownPos)));
      assert keys == SessionKeys(s, mine, peer[..], dhPos, own[..], ownPos);
    }
    ghost var body, d := reply[..], DigestAt(peer[..], digestPos);
    var digestResp := s.hmac(DigestAt(peer[..], digestPos), ourKey);
    var signaturePos := SIG_SIZE - DIGEST_LENGTH;
    CopyInto(reply, signaturePos, s.hmac(reply[..signaturePos], digestResp));
    SealInPlace(s, kind, digestResp, reply, signaturePos);
    assert reply[..] == WithSignature(body, Signature(s, kind, body, d, ourKey));
    return true, keys;
  }

  /** The last comparison of both handshakes. */
  method IsGenuine(s: Suite, kind: byte, own: array<byte>, digestPos: nat, second: array<byte>, theirKey: Bytes)
      returns (genuine: bool)
    requires s.Valid() && own.Length == second.Length == SIG_SIZE && digestPos + DIGEST_LENGTH <= SIG_SIZE
    ensures var signature := Signature(s, kind, second[..], DigestAt(own[..], digestPos), theirKey);
            genuine <==> second[SIG_SIZE - DIGEST_LENGTH..] == signature
  {
    hide Seal;
    var signature := new byte[DIGEST_LENGTH];
    var digest := s.hmac(DigestAt(own[..], digestPos), theirKey);
    var body := second[..SIG_SIZE - DIGEST_LENGTH];
    assert body == second[..][..SIG_SIZE - DIGEST_LENGTH];
    CopyInto(signature, 0, s.hmac(body, digest));
    assert signature[..] == s.hmac(body, digest);
    SealInPlace(s, kind, digest, signature, 0);
    genuine := signature[..] == second[SIG_SIZE - DIGEST_LENGTH..];
  }

  /** The end of both handshakes: the peer's second message is read and judged, and the session streams are
      installed. */
  method Conclude(r: Rtmp, s: Suite, kind: byte, own: array<byte>, digestPos: nat, a: Answer, second: array<byte>,
                  theirKey: Bytes)
    returns (ok: bool)
    requires s.Valid() && own.Length == second.Length == SIG_SIZE && own != second
             && digestPos + DIGEST_LENGTH <= SIG_SIZE
    requires r.rc4keyIn == None && r.rc4keyOut == None
    modifies r, second
    ensures r.output == old(r.output) && r.room == old(r.room) && r.swfResponse == old(r.swfResponse)
    ensures var outcome := if |old(r.input)| < SIG_SIZE then Failed
                           else Finish(s, kind, own[..], digestPos, a, old(r.input)[..SIG_SIZE], theirKey);
            && (ok <==> outcome.Succeeded?)
            && r.Holds(if ok then outcome.keys else None)
    ensures r.encrypted == old(r.encrypted)
  {
    hide Signature;
    ok := r.ReadN(second);
    if !ok {
      return;
    }
    if a.signs {
      ok := IsGenuine(s, kind, own, digestPos, second, theirKey);
      if !ok {
        return;
      }
      if a.keys.Some? {
        r.rc4keyIn, r.rc4keyOut := Some(a.keys.value.input), Some(a.keys.value.output);
        r.rc4keyIn := Some(r.rc4keyIn.value.Advance(SIG_SIZE));
        r.rc4keyOut := Some(r.rc4keyOut.value.Advance(SIG_SIZE));
      }
    }
  }

  /** The client's signed answer, in a buffer of its own, and the token it stores once the server's digest has
      verified. */
  method SignToServer(r: Rtmp, s: Suite, c: Client, clientsig: array<byte>, dhPosClient: nat, dh: Mdh, kind: byte,
                      serversig: array<byte>, reply: array<byte>)
    returns (ok: bool, keys: Option<Keys>)
    requires s.Valid() && FitsKey(s.p) && r.swf == c.swf
    requires clientsig.Length == serversig.Length == reply.Length == SIG_SIZE && clientsig != reply
             && serversig != reply
    requires dhPosClient + DH_LENGTH <= SIG_SIZE && dh.p == s.p
    requires c.encrypted ==>
               dhPosClient == DhOffset(c.Scheme(), Raw(c.mine, c.Version())) && dh.HasKey(SecretExponent(s, c.mine))
    modifies r`swfResponse, reply
    ensures var a := SignedAnswer(s, c.mine, kind, c.encrypted, c.Scheme(), serversig[..], FMSKey36(s), clientsig[..],
                                  DhOffset(c.Scheme(), Raw(c.mine, c.Version())), c.filler, s.fpKey);
            && (ok <==> a.Some?)
            && (ok ==> a.value == Answer(true, reply[..], keys))
    ensures r.swfResponse == Or(VerifiedToken(s, c.swf, true, c.Scheme(), serversig[..], FMSKey36(s), serversig[..]),
                                old(r.swfResponse))
  {
    hide DhOffset, DigestOffset, SignedAnswer, SecretExponent, DH.Pow, DH.FitsKey, Raw, FindScheme, SwfToken;
    ghost var hello, server := clientsig[..], serversig[..];
    ghost var ownPos := DhOffset(c.Scheme(), Raw(c.mine, c.Version()));
    keys := None;
    var scheme;
    ok, scheme := FindPeer(s, c.Scheme(), serversig, FMSKey36(s));
    if !ok {
      AnswerNeedsScheme(s, c.mine, kind, c.encrypted, c.Scheme(), server, FMSKey36(s), hello, ownPos, c.filler,
                        s.fpKey);
      return;
    }
    r.StoreToken(s, serversig);
    CopyInto(reply, 0, c.filler);
    assert reply[..] == c.filler;
    AnswerOnlyUsesKeyIfEncrypted(s, c.mine, kind, c.encrypted, c.Scheme(), server, FMSKey36(s), hello, dhPosClient,
                                 ownPos, c.filler, s.fpKey);
    ok, keys := SignAnswer(s, c.mine, kind, c.encrypted, c.Scheme(), scheme, serversig, FMSKey36(s), clientsig,
                           dhPosClient, reply, s.fpKey, dh);
  }

  /** `HandShake` once it has read the server's first message. */
  method ReplyToServer(r: Rtmp, s: Suite, c: Client, clientsig: array<byte>, dhPosClient: nat, digestPosClient: nat,
                       dh: Mdh, kind: byte, serversig: array<byte>)
    returns (ok: bool)
    requires s.Valid() && FitsKey(s.p) && r.swf == c.swf && r.rc4keyIn == None && r.rc4keyOut == None
    requires clientsig.Length == serversig.Length == SIG_SIZE && clientsig != serversig
    requires dhPosClient + DH_LENGTH <= SIG_SIZE && digestPosClient + DIGEST_LENGTH <= SIG_SIZE && dh.p == s.p
    requires c.Signs() ==> digestPosClient == DigestOffset(c.Scheme(), clientsig[..])
    requires c.encrypted ==>
               dhPosClient == DhOffset(c.Scheme(), Raw(c.mine, c.Version())) && dh.HasKey(SecretExponent(s, c.mine))
    modifies r, serversig
    ensures var run := ClientTurn(s, c, clientsig[..], kind, old(serversig[..]), old(r.input));
            && r.output == old(r.output) + Take(run.written, old(r.room))
            && (ok <==> run.outcome.Succeeded? && |run.written| <= old(r.room))
            && r.Holds(if ok then run.outcome.keys else None)
    ensures r.swfResponse == Or(ClientTurnToken(s, c, kind, old(serversig[..])), old(r.swfResponse))
    ensures r.encrypted == old(r.encrypted)
  {
    hide DhOffset, DigestOffset, SignedAnswer, SecretExponent, DH.Pow, DH.FitsKey, Raw, Finish, FindScheme, SwfToken;
    ghost var hello, server := clientsig[..], serversig[..];
    var fp9 := c.Signs();
    if fp9 && kind == 3 && serversig[4] == 0 {
      fp9 := false;
    }
    var reply, keys: Option<Keys> := serversig, None;
    if fp9 {
      reply := new byte[SIG_SIZE];
      ok, keys := SignToServer(r, s, c, clientsig, dhPosClient, dh, kind, serversig, reply);
      if !ok {
        return;
      }
    }
    var a := Answer(fp9, reply[..], keys);
    assert ClientAnswer(s, c, hello, kind, server) == Some(a);
    ok := r.WriteN(reply[..]);
    if !ok {
      return;
    }
    FinishOnlyUsesDigest(s, kind, hello, digestPosClient, DigestOffset(c.Scheme(), hello), a, s.fmsKey);
    ok := Conclude(r, s, kind, clientsig, digestPosClient, a, serversig, s.fmsKey);
  }

  /** `HandShake` from its first read on. */
  method AnswerServer(r: Rtmp, s: Suite, c: Client, clientsig: array<byte>, dhPosClient: nat, digestPosClient: nat,
                      dh: Mdh)
    returns (ok: bool)
    requires s.Valid() && FitsKey(s.p) && r.swf == c.swf && r.rc4keyIn == None && r.rc4keyOut == None
    requires clientsig.Length == SIG_SIZE
    requires dhPosClient + DH_LENGTH <= SIG_SIZE && digestPosClient + DIGEST_LENGTH <= SIG_SIZE && dh.p == s.p
    requires c.Signs() ==> digestPosClient == DigestOffset(c.Scheme(), clientsig[..])
    requires c.encrypted ==>
               dhPosClient == DhOffset(c.Scheme(), Raw(c.mine, c.Version())) && dh.HasKey(SecretExponent(s, c.mine))
    modifies r
    ensures var rest := ClientRest(s, c, clientsig[..], old(r.input));
            && r.output == old(r.output) + Take(rest.written, old(r.room))
            && (ok <==> rest.outcome.Succeeded? && |rest.written| <= old(r.room))
            && r.Holds(if ok then rest.outcome.keys else None)
    ensures r.swfResponse == Or(ClientRestToken(s, c, old(r.input)), old(r.swfResponse))
    ensures r.encrypted == old(r.encrypted)
  {
    hide DhOffset, DigestOffset, SecretExponent, DH.Pow, DH.FitsKey, Raw, ClientTurn, ClientTurnToken;
    ghost var input := r.input;
    var serversig, kind := new byte[SIG_SIZE], new byte[1];
    ok := r.ReadN(kind);
    if !ok {
      return;
    }
    ok := r.ReadN(serversig);
    if !ok {
      return;
    }
    assert kind[0] == kind[..][0] == input[0] && serversig[..] == input[1..1 + SIG_SIZE];
    assert r.input == input[1 + SIG_SIZE..];
    ok := ReplyToServer(r, s, c, clientsig, dhPosClient, digestPosClient, dh, kind[0], serversig);
  }

  /** An unsigned end does not look at the digest's position. */
  lemma FinishOnlyUsesDigest(s: Suite, kind: byte, own: Block, pos1: nat, pos2: nat, a: Answer, key: Bytes)
    requires s.Valid() && pos1 + DIGEST_LENGTH <= SIG_SIZE && pos2 + DIGEST_LENGTH <= SIG_SIZE
    requires a.signs ==> pos1 == pos2
    ensures forall second: Block ::
              Finish(s, kind, own, pos1, a, second, key) == Finish(s, kind, own, pos2, a, second, key)
  {
  }

  lemma AnswerNeedsScheme(s: Suite, mine: Local, kind: byte, encrypted: bool, expected: Scheme, peer: Block,
                          theirKey: Bytes, own: Block, ownPos: nat, body: Block, ourKey: Bytes)
    requires s.Valid() && ownPos + DH_LENGTH <= SIG_SIZE && FindScheme(expected, peer, theirKey, s.hmac) == None
    ensures SignedAnswer(s, mine, kind, encrypted, expected, peer, theirKey, own, ownPos, body, ourKey) == None
  {
  }

  /** An unencrypted answer does not look at the key's position. */
  lemma AnswerOnlyUsesKeyIfEncrypted(s: Suite, mine: Local, kind: byte, encrypted: bool, expected: Scheme, peer: Block,
                                     theirKey: Bytes, own: Block, pos1: nat, pos2: nat, body: Block, ourKey: Bytes)
    requires s.Valid() && pos1 + DH_LENGTH <= SIG_SIZE && pos2 + DH_LENGTH <= SIG_SIZE
    requires encrypted ==> pos1 == pos2
    ensures SignedAnswer(s, mine, kind, encrypted, expected, peer, theirKey, own, pos1, body, ourKey)
         == SignedAnswer(s, mine, kind, encrypted, expected, peer, theirKey, own, pos2, body, ourKey)
  {
    hide FindScheme, DigestOffset, Signature;
  }

  method HandShake(r: Rtmp, s: Suite, c: Client) returns (ok: bool)
    requires s.Valid() && FitsKey(s.p) && r.encrypted == c.encrypted && r.swf == c.swf
    modifies r
    ensures var run := ClientRun(s, c, old(r.input));
            && r.output == old(r.output) + Take(run.written, old(r.room))
            && (ok <==> run.outcome.Succeeded? && |run.written| <= old(r.room))
            && r.Holds(if ok then run.outcome.keys else None)
    ensures r.swfResponse == Or(ClientToken(s, c, old(r.input), old(r.room)), old(r.swfResponse))
    ensures r.encrypted == old(r.encrypted)
  {
    hide DhOffset, DigestOffset, Opening, ClientRest, SecretExponent, DH.Pow, DH.FitsKey, Raw, ClientRestToken, Take;
    r.rc4keyIn, r.rc4keyOut := None, None;
    var clientsig := new byte[SIG_SIZE];
    var dh := new Mdh(s.p);
    var dhPosClient, digestPosClient;
    ok, dhPosClient, digestPosClient :=
      WriteOpening(s, c.mine, c.Version(), c.Signs(), c.encrypted, c.Scheme(), FPKey30(s), clientsig, dh);
    if !ok {
      return;
    }
    TakeConcat([c.Type()] + clientsig[..], ClientRest(s, c, clientsig[..], r.input).written, r.room);
    ok := r.WriteN([c.Type()] + clientsig[..]);
    if !ok {
      return;
    }
    ok := AnswerServer(r, s, c, clientsig, dhPosClient, digestPosClient, dh);
  }

  /** `SHandShake` from its first write on. */
  method AnswerClient(r: Rtmp, s: Suite, mine: Local, choice: ServerChoice, serversig: array<byte>, dhPosServer: nat,
                      digestPosServer: nat, clientsig: array<byte>, dh: Mdh) returns (ok: bool)
    requires s.Valid() && FitsKey(s.p) && serversig.Length == clientsig.Length == SIG_SIZE && serversig != clientsig
    requires r.rc4keyIn == None && r.rc4keyOut == None && (choice.encrypted ==> choice.signs)
    requires dhPosServer + DH_LENGTH <= SIG_SIZE && digestPosServer + DIGEST_LENGTH <= SIG_SIZE && dh.p == s.p
    requires choice.signs ==> digestPosServer == DigestOffset(choice.Scheme(), serversig[..])
    requires choice.encrypted ==>
               dhPosServer == DhOffset(choice.Scheme(), Raw(mine, choice.Version()))
                 && dh.HasKey(SecretExponent(s, mine))
    modifies r, clientsig
    ensures var rest := ServerRest(s, mine, choice, serversig[..], old(clientsig[..]), old(r.input));
            && r.output == old(r.output) + Take(rest.written, old(r.room))
            && (ok <==> rest.outcome.Succeeded? && |rest.written| <= old(r.room))
            && r.Holds(if ok then rest.outcome.keys else None)
    ensures r.swfResponse
            == Or(ServerRestToken(s, r.swf, choice, serversig[..], old(clientsig[..])), old(r.swfResponse))
    ensures r.encrypted == old(r.encrypted)
  {
    hide DhOffset, DigestOffset, SignedAnswer, SecretExponent, DH.Pow, DH.FitsKey, Raw, Finish, FindScheme, SwfToken;
    ghost var hello, client := serversig[..], clientsig[..];
    var keys: Option<Keys> := None;
    if choice.signs {
      var scheme;
      ok, scheme := FindPeer(s, choice.Scheme(), clientsig, FPKey30(s));
      if !ok {
        AnswerNeedsScheme(s, mine, choice.kind, choice.encrypted, choice.Scheme(), client, FPKey30(s), hello,
                          DhOffset(choice.Scheme(), Raw(mine, choice.Version())), client, s.fmsKey);
        return;
      }
      r.StoreToken(s, serversig);
      AnswerOnlyUsesKeyIfEncrypted(s, mine, choice.kind, choice.encrypted, choice.Scheme(), client, FPKey30(s), hello,
                                   dhPosServer, DhOffset(choice.Scheme(), Raw(mine, choice.Version())), client,
                                   s.fmsKey);
      ok, keys := SignAnswer(s, mine, choice.kind, choice.encrypted, choice.Scheme(), scheme, clientsig,
                             FPKey30(s), serversig, dhPosServer, clientsig, s.fmsKey, dh);
      if !ok {
        return;
      }
    }
    var a := Answer(choice.signs, clientsig[..], keys);
    assert ServerAnswer(s, mine, choice, hello, client) == Some(a);
    ok := r.WriteN(clientsig[..]);
    if !ok {
      return;
    }
    FinishOnlyUsesDigest(s, choice.kind, hello, digestPosServer, DigestOffset(choice.Scheme(), hello), a, s.fpKey);
    ok := Conclude(r, s, choice.kind, serversig, digestPosServer, a, clientsig, s.fpKey);
  }

  /** `SHandShake` once it has read the client's first message and made its choice. */
  method WelcomeClient(r: Rtmp, s: Suite, mine: Local, choice: ServerChoice, clientsig: array<byte>) returns (ok: bool)
    requires s.Valid() && FitsKey(s.p) && clientsig.Length == SIG_SIZE && (choice.encrypted ==> choice.signs)
    modifies r, clientsig
    ensures var run := ServerTurn(s, mine, choice, old(clientsig[..]), old(r.input));
            && r.output == old(r.output) + Take(run.written, old(r.room))
            && (ok <==> run.outcome.Succeeded? && |run.written| <= old(r.room))
            && r.Holds(if ok then run.outcome.keys else None)
    ensures r.swfResponse
            == Or(ServerTurnToken(s, mine, r.swf, choice, old(clientsig[..]), old(r.room)), old(r.swfResponse))
    ensures r.encrypted == old(r.encrypted)
  {
    hide DhOffset, DigestOffset, Opening, ServerRest, SecretExponent, DH.Pow, DH.FitsKey, Raw, ServerRestToken, Take;
    r.rc4keyIn, r.rc4keyOut := None, None;
    var serversig := new byte[SIG_SIZE];
    var dh := new Mdh(s.p);
    var dhPosServer, digestPosServer;
    ok, dhPosServer, digestPosServer :=
      WriteOpening(s, mine, choice.Version(), choice.signs, choice.encrypted, choice.Scheme(), FMSKey36(s), serversig,
                   dh);
    if !ok {
      return;
    }
    ghost var rest := ServerRest(s, mine, choice, serversig[..], clientsig[..], r.input);
    TakeConcat([choice.kind] + serversig[..], rest.written, r.room);
    ok := r.WriteN([choice.kind] + serversig[..]);
    if !ok {
      return;
    }
    ok := AnswerClient(r, s, mine, choice, serversig, dhPosServer, digestPosServer, clientsig, dh);
  }

  /** Whether the client's first message is read and has a known type. */
  predicate Accepts(input: Bytes) { |input| >= 1 + SIG_SIZE && (input[0] == 3 || input[0] == 6 || input[0] == 8) }

  method SHandShake(r: Rtmp, s: Suite, mine: Local) returns (ok: bool)
    requires s.Valid() && FitsKey(s.p)
    modifies r
    ensures var run := ServerRun(s, mine, old(r.input));
            && r.output == old(r.output) + Take(run.written, old(r.room))
            && (ok <==> run.outcome.Succeeded? && |run.written| <= old(r.room))
            && (if Accepts(old(r.input)) then r.Holds(if ok then run.outcome.keys else None)
                else r.rc4keyIn == old(r.rc4keyIn) && r.rc4keyOut == old(r.rc4keyOut))
    ensures r.swfResponse == Or(ServerToken(s, mine, r.swf, old(r.input), old(r.room)), old(r.swfResponse))
    ensures r.encrypted == (old(r.encrypted) || (Accepts(old(r.input)) && old(r.input)[0] != 3))
  {
    hide ServerTurn, ServerTurnToken, DH.FitsKey, Take;
    ghost var input := r.input;
    var clientsig, kind := new byte[SIG_SIZE], new byte[1];
    ok := r.ReadN(kind);
    if !ok {
      return;
    }
    ok := r.ReadN(clientsig);
    if !ok {
      return;
    }
    assert kind[0] == kind[..][0] == input[0] && clientsig[..] == input[1..1 + SIG_SIZE]
           && r.input == input[1 + SIG_SIZE..];
    var choice;
    if kind[0] == 3 {
      choice := ServerChoice(3, false, clientsig[4] != 0);
    } else if kind[0] == 6 || kind[0] == 8 {
      r.encrypted := true;
      choice := ServerChoice(if clientsig[4] == 128 then 8 else kind[0], true, true);
    } else {
      return false;
    }
    ok := WelcomeClient(r, s, mine, choice, clientsig);
  }
}
