/** The two sides of the RTMP handshake, as functions from what a side has received to what it writes next. */
module Handshake {
  import opened Bytes
  import opened HandshakeBlock
  import DH = DiffieHellman

  type Fill = s: Bytes | |s| == SIG_SIZE - 8 witness seq(SIG_SIZE - 8, _ => 0)

  /** An RC4 stream: its 16-byte key and how many bytes of it have been used. */
  datatype Rc4 = Rc4(key: Bytes, used: nat) {
    function Advance(n: nat): Rc4 { Rc4(key, used + n) }
  }

  /** The streams for what a side receives and for what it sends. */
  datatype Keys = Keys(input: Rc4, output: Rc4)

  /** `InitRC4Encryption`: what comes in was keyed by our own public key, what goes out by the peer's. */
  function InitRC4Encryption(s: Suite, secret: Bytes, pubKeyIn: Bytes, pubKeyOut: Bytes): Keys {
    Keys(Rc4(s.hmac(pubKeyOut, secret)[..16], 0), Rc4(s.hmac(pubKeyIn, secret)[..16], 0))
  }

  /** What one side brings along: its clock, and all its randomness. */
  datatype Local = Local(uptime: Quad, random: Fill, draws: nat -> nat)

  /** The player file that a connection claims to come from: `SWFSize` and `SWFHash`. */
  datatype Swf = Swf(size: nat, hash: Digest)

  type Token = s: Bytes | |s| == 42 witness seq(42, _ => 0)

  /** The configuration of the client: encryption, SWF verification, and the randomness of its answer. */
  datatype Client = Client(encrypted: bool, swf: Swf, mine: Local, filler: Block) {
    function Signs(): bool { encrypted || swf.size != 0 }

    function Type(): byte { if encrypted then 6 else 3 }

    function Scheme(): Scheme { if encrypted then Scheme2 else Scheme1 }

    function Version(): Quad {
      if encrypted then [128, 0, 3, 2] else if Signs() then [10, 0, 45, 2] else [0, 0, 0, 0]
    }
  }

  // -------------------------------------------------------------- first messages

  function Raw(mine: Local, version: Quad): Block { mine.uptime + version + mine.random }

  function SecretExponent(s: Suite, mine: Local): nat { DH.Exponent(mine.draws(0), s.p) }

  /** The public key a side writes; none if `DHGenerateKey` or `DHGetPublicKey` fails. */
  function WrittenKey(s: Suite, mine: Local): (r: Option<Bytes>)
    requires s.Valid()
    ensures r.Some? ==> |r.value| == DH_LENGTH
  {
    var e := SecretExponent(s, mine);
    if 0 < DH.ExponentBits(s.p) <= 18000 && DH.PowMod(DH.G, e, s.p) < DH.Pow(0x100, DH_LENGTH)
    then Some(DH.PublicKey(e, s.p)) else None
  }

  /** The block a side opens with: random data, then the public key if there is one, then the digest. */
  function Opening(s: Suite, mine: Local, version: Quad, signs: bool, encrypted: bool, scheme: Scheme,
                   key: Bytes): Option<Block>
    requires s.Valid()
  {
    var raw := Raw(mine, version);
    if !signs then Some(raw)
    else if !encrypted then Some(Signed(scheme, raw, key, s.hmac))
    else match WrittenKey(s, mine)
      case None => None
      case Some(pub) => Some(Signed(scheme, WithKey(scheme, raw, pub), key, s.hmac))
  }

  function FPKey30(s: Suite): Bytes
    requires s.Valid()
  {
    s.fpKey[..30]
  }

  function FMSKey36(s: Suite): Bytes
    requires s.Valid()
  {
    s.fmsKey[..36]
  }

  function ClientHello(s: Suite, c: Client): Option<Block>
    requires s.Valid()
  {
    Opening(s, c.mine, c.Version(), c.Signs(), c.encrypted, c.Scheme(), FPKey30(s))
  }

  /** What the server has decided when it has read the client's first message. */
  datatype ServerChoice = ServerChoice(kind: byte, encrypted: bool, signs: bool) {
    function Scheme(): Scheme { if encrypted then Scheme2 else Scheme1 }

    function Version(): Quad { if signs then [3, 5, 1, 1] else [0, 0, 0, 0] }
  }

  function Choose(kind: byte, client: Block): Option<ServerChoice> {
    if kind == 3 then Some(ServerChoice(3, false, client[4] != 0))
    else if kind == 6 || kind == 8 then Some(ServerChoice(if client[4] == 128 then 8 else kind, true, true))
    else None
  }

  function ServerHello(s: Suite, mine: Local, choice: ServerChoice): Option<Block>
    requires s.Valid()
  {
    Opening(s, mine, choice.Version(), choice.signs, choice.encrypted, choice.Scheme(), FMSKey36(s))
  }

  // ------------------------------------------------------------- second messages

  /** The scheme under which the peer's block verifies: the expected one first, then the other. */
  function FindScheme(expected: Scheme, peer: Block, key: Bytes, hmac: Hmac): Option<Scheme> {
    if VerifyDigest(DigestOffset(expected, peer), peer, key, hmac) then Some(expected)
    else if VerifyDigest(DigestOffset(expected.Other(), peer), peer, key, hmac) then Some(expected.Other())
    else None
  }

  function DigestAt(h: Block, pos: nat): Digest
    requires pos + DIGEST_LENGTH <= SIG_SIZE
  {
    h[pos..pos + DIGEST_LENGTH]
  }

  function KeyAt(h: Block, pos: nat): Bytes
    requires pos + DH_LENGTH <= SIG_SIZE
  {
    h[pos..pos + DH_LENGTH]
  }

  /** The session keys, from the peer's key at `peerPos` and our own, which we wrote at `ownPos`; none if the peer's is
      invalid. */
  function SessionKeys(s: Suite, mine: Local, peer: Block, peerPos: nat, own: Block, ownPos: nat): Option<Keys>
    requires s.Valid() && peerPos + DH_LENGTH <= SIG_SIZE && ownPos + DH_LENGTH <= SIG_SIZE
  {
    match DH.SharedSecret(SecretExponent(s, mine), KeyAt(peer, peerPos), s.p)
    case None => None
    case Some(secret) => Some(InitRC4Encryption(s, secret, KeyAt(peer, peerPos), KeyAt(own, ownPos)))
  }

  /** The signature over the first 1504 bytes of `body` that proves knowledge of the digest `d`. */
  function Signature(s: Suite, kind: byte, body: Block, d: Digest, key: Bytes): Digest
    requires s.Valid()
  {
    var digestKey := s.hmac(d, key);
    Seal(s, kind, digestKey, s.hmac(body[..SIG_SIZE - DIGEST_LENGTH], digestKey))
  }

  function WithSignature(body: Block, signature: Digest): Block {
    body[..SIG_SIZE - DIGEST_LENGTH] + signature
  }

  /** A side's second message, and what it keeps for the end of the handshake. */
  datatype Answer = Answer(signs: bool, reply: Block, keys: Option<Keys>)

  /** The signed answer to a peer's block: `body` carries the signature, `theirKey` checks, `ourKey` signs. */
  function SignedAnswer(s: Suite, mine: Local, kind: byte, encrypted: bool, expected: Scheme, peer: Block,
                        theirKey: Bytes, own: Block, ownPos: nat, body: Block, ourKey: Bytes): Option<Answer>
    requires s.Valid() && ownPos + DH_LENGTH <= SIG_SIZE
  {
    match FindScheme(expected, peer, theirKey, s.hmac)
    case None => None
    case Some(scheme) =>
      var reply := WithSignature(body, Signature(s, kind, body, DigestAt(peer, DigestOffset(scheme, peer)), ourKey));
      if !encrypted then Some(Answer(true, reply, None))
      else match SessionKeys(s, mine, peer, DhOffset(scheme, peer), own, ownPos)
        case None => None
        case Some(keys) => Some(Answer(true, reply, Some(keys)))
  }

  /** A client does not sign to a server that answers as a plain one. */
  predicate SignsTo(c: Client, kind: byte, server: Block) { c.Signs() && !(kind == 3 && server[4] == 0) }

  function ClientAnswer(s: Suite, c: Client, hello: Block, kind: byte, server: Block): Option<Answer>
    requires s.Valid()
  {
    if !SignsTo(c, kind, server) then Some(Answer(false, server, None))
    else SignedAnswer(s, c.mine, kind, c.encrypted, c.Scheme(), server, FMSKey36(s),
                      hello, DhOffset(c.Scheme(), Raw(c.mine, c.Version())), c.filler, s.fpKey)
  }

  function ServerAnswer(s: Suite, mine: Local, choice: ServerChoice, hello: Block, client: Block): Option<Answer>
    requires s.Valid()
  {
    if !choice.signs then Some(Answer(false, client, None))
    else SignedAnswer(s, mine, choice.kind, choice.encrypted, choice.Scheme(), client, FPKey30(s),
                      hello, DhOffset(choice.Scheme(), Raw(mine, choice.Version())), client, s.fmsKey)
  }

  /** `SWFVerificationResponse`: keyed by the last 32 bytes of the server's first block, on both sides. */
  function SwfToken(s: Suite, swf: Swf, server: Block): Token {
    [1, 1] + s.int32(swf.size) + s.int32(swf.size) + s.hmac(swf.hash, server[SIG_SIZE - DIGEST_LENGTH..])
  }

  /** The token that a side stores once it has verified its peer's block; none if it does not get so far. */
  function VerifiedToken(s: Suite, swf: Swf, signs: bool, expected: Scheme, peer: Block, theirKey: Bytes,
                         server: Block): Option<Token> {
    if signs && swf.size != 0 && FindScheme(expected, peer, theirKey, s.hmac).Some? then Some(SwfToken(s, swf, server))
    else None
  }

  // ------------------------------------------------------------------- the end

  /** How a side ends: it returns TRUE, with session streams if the connection is encrypted; or FALSE. */
  datatype Outcome = Succeeded(keys: Option<Keys>) | Failed

  function Advanced(keys: Option<Keys>): Option<Keys> {
    match keys
    case None => None
    case Some(k) => Some(Keys(k.input.Advance(SIG_SIZE), k.output.Advance(SIG_SIZE)))
  }

  /** The last check: the peer's second message must carry the signature that our own digest calls for. */
  function Finish(s: Suite, kind: byte, own: Block, ownDigestPos: nat, a: Answer, second: Block,
                  theirKey: Bytes): Outcome
    requires s.Valid() && ownDigestPos + DIGEST_LENGTH <= SIG_SIZE
  {
    if !a.signs then Succeeded(None)
    else if second[SIG_SIZE - DIGEST_LENGTH..] != Signature(s, kind, second, DigestAt(own, ownDigestPos), theirKey)
      then Failed
    else Succeeded(Advanced(a.keys))
  }

  function ClientFinish(s: Suite, c: Client, hello: Block, kind: byte, a: Answer, second: Block): Outcome
    requires s.Valid()
  {
    Finish(s, kind, hello, DigestOffset(c.Scheme(), hello), a, second, s.fmsKey)
  }

  function ServerFinish(s: Suite, choice: ServerChoice, hello: Block, a: Answer, second: Block): Outcome
    requires s.Valid()
  {
    Finish(s, choice.kind, hello, DigestOffset(choice.Scheme(), hello), a, second, s.fpKey)
  }

  // ------------------------------------------------- a side on a byte stream

  /** What a side has written and how it ended, when `input` is all that it will ever receive. */
  datatype Run = Run(written: Bytes, outcome: Outcome)

  /** The client once it has the server's first message; `input` is what follows. */
  function ClientTurn(s: Suite, c: Client, hello: Block, kind: byte, server: Block, input: Bytes): Run
    requires s.Valid()
  {
    match ClientAnswer(s, c, hello, kind, server)
    case None => Run([], Failed)
    case Some(a) =>
      Run(a.reply, if |input| < SIG_SIZE then Failed else ClientFinish(s, c, hello, kind, a, input[..SIG_SIZE]))
  }

  /** The client after its first message. */
  function ClientRest(s: Suite, c: Client, hello: Block, input: Bytes): Run
    requires s.Valid()
  {
    if |input| < 1 + SIG_SIZE then Run([], Failed)
    else ClientTurn(s, c, hello, input[0], input[1..1 + SIG_SIZE], input[1 + SIG_SIZE..])
  }

  function ClientRun(s: Suite, c: Client, input: Bytes): Run
    requires s.Valid()
  {
    match ClientHello(s, c)
    case None => Run([], Failed)
    case Some(hello) =>
      var rest := ClientRest(s, c, hello, input);
      Run([c.Type()] + hello + rest.written, rest.outcome)
  }

  /** The server after its first message; `input` is what follows the client's first block. */
  function ServerRest(s: Suite, mine: Local, choice: ServerChoice, hello: Block, client: Block, input: Bytes): Run
    requires s.Valid()
  {
    match ServerAnswer(s, mine, choice, hello, client)
    case None => Run([], Failed)
    case Some(a) =>
      Run(a.reply, if |input| < SIG_SIZE then Failed else ServerFinish(s, choice, hello, a, input[..SIG_SIZE]))
  }

  /** The server once it has the client's first message and made its choice; `input` is what follows. */
  function ServerTurn(s: Suite, mine: Local, choice: ServerChoice, client: Block, input: Bytes): Run
    requires s.Valid()
  {
    match ServerHello(s, mine, choice)
    case None => Run([], Failed)
    case Some(hello) =>
      var rest := ServerRest(s, mine, choice, hello, client, input);
      Run([choice.kind] + hello + rest.written, rest.outcome)
  }

  function ServerRun(s: Suite, mine: Local, input: Bytes): Run
    requires s.Valid()
  {
    if |input| < 1 + SIG_SIZE then Run([], Failed)
    else
      var client := input[1..1 + SIG_SIZE];
      match Choose(input[0], client)
      case None => Run([], Failed)
      case Some(choice) => ServerTurn(s, mine, choice, client, input[1 + SIG_SIZE..])
  }

  // ------------------------------------------------- the token on a byte stream

  /** What the client stores once it has the server's first message. */
  function ClientTurnToken(s: Suite, c: Client, kind: byte, server: Block): Option<Token>
    requires s.Valid()
  {
    VerifiedToken(s, c.swf, SignsTo(c, kind, server), c.Scheme(), server, FMSKey36(s), server)
  }

  function ClientRestToken(s: Suite, c: Client, input: Bytes): Option<Token>
    requires s.Valid()
  {
    if |input| < 1 + SIG_SIZE then None else ClientTurnToken(s, c, input[0], input[1..1 + SIG_SIZE])
  }

  /** What the client stores in a whole run, when the connection takes `room` bytes before it breaks. */
  function ClientToken(s: Suite, c: Client, input: Bytes, room: nat): Option<Token>
    requires s.Valid()
  {
    if ClientHello(s, c) == None || room < 1 + SIG_SIZE then None else ClientRestToken(s, c, input)
  }

  function ServerRestToken(s: Suite, swf: Swf, choice: ServerChoice, hello: Block, client: Block): Option<Token>
    requires s.Valid()
  {
    VerifiedToken(s, swf, choice.signs, choice.Scheme(), client, FPKey30(s), hello)
  }

  function ServerTurnToken(s: Suite, mine: Local, swf: Swf, choice: ServerChoice, client: Block,
                           room: nat): Option<Token>
    requires s.Valid()
  {
    match ServerHello(s, mine, choice)
    case None => None
    case Some(hello) => if room < 1 + SIG_SIZE then None else ServerRestToken(s, swf, choice, hello, client)
  }

  function ServerToken(s: Suite, mine: Local, swf: Swf, input: Bytes, room: nat): Option<Token>
    requires s.Valid()
  {
    if |input| < 1 + SIG_SIZE then None
    else
      var client := input[1..1 + SIG_SIZE];
      match Choose(input[0], client)
      case None => None
      case Some(choice) => ServerTurnToken(s, mine, swf, choice, client, room)
  }
}
