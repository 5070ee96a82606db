# A verified model of the live-streaming core

A camera application encodes pictures with x264, cuts and wraps the result as FLV tags, and pushes the tags to an RTMP
server. This project models the parts of that path that are byte-level algorithms or state machines, and proves what they
promise. `dafny verify dfyconfig.toml` checks everything.

The code is imperative, so the model is too. A C or Java function that works in place is a method on arrays or on a class
with fields. Its contract ties the result to a pure function, and the results about that function are lemmas. All tables,
primes, random numbers and hash functions are symbolic: the results hold for every choice of them.

## Modules

| part | modules |
|---|---|
| Bytes, words, arithmetic, permutations | `Bytes`, `Words`, `Arithmetic`, `Permutation` |
| Ciphers of the handshake | `Xtea` (type 8), `Blowfish` (type 9), `KnownAnswers` (a published vector) |
| Key exchange, and which keys have the order that is tested | `DiffieHellman` (the GnuTLS form of `dh.h`), `KeyOrder` |
| The 1536-byte block, its hidden offsets, its digest and its sealed signature | `HandshakeBlock` |
| The two sides of the handshake as functions, byte by byte, as code, and as processes | `Handshake`, `HandshakeFormat`, `HandshakeCode`, `HandshakeNetwork` |
| What a client and a server achieve together, and what their streams then carry | `HandshakeAgreement`, `SessionStream` |
| Annex B scanner, FLV tags, the video writer as a fold and as code, a receiver | `AnnexB`, `FlvTag`, `Mux`, `RtmpSender`, `Receiver` |
| Queue and pushing thread | `LinkedQueue`, `Pusher` |
| NV21 rotations, as maps of planes and as loops | `Plane`, `Nv21`, `Nv21Code` |
| Encoder driver, SPS/PPS regrouping, from the encoder to the tags, and from the tags to the connection | `X264Encoder`, `Regroup`, `Pipeline`, `Wire` |

## Main results

* **Handshake.** Client and server are processes joined by two channels. In every interleaving and every mode, for all
  randomness and secret exponents, no side fails, a run has at most eight steps, and a run that cannot go on has ended with
  both sides returning TRUE and with crossed, equal RC4 streams (`EveryRunSucceeds`). Whatever is then sent, in calls of any
  size, arrives unchanged (`SessionDelivers`).
* **Ciphers.** Both signatures are bijections on 8-byte blocks for every key. `bf_setkey` computes the one solution of the
  equations of its key schedule. What the round functions compute is stated apart from the code, bit by bit or as recurrences
  with all constants, and so is every message of the handshake, byte by byte (`HandshakeFormat`).
* **Muxing.** The scanner returns exactly the units that were joined if and only if none of them contains a start code. A
  receiver gets every FLV tag back if and only if the lengths fit their fields, and every slice of a call if and only if no
  slice follows directly on the SPS that is sent.
* **Queue and thread.** After every schedule of writers, thread, network and close, what was written, the packet in hand, the
  queue and what a close dropped are exactly what was pushed, and each payload is freed once. Which schedules use freed
  memory is characterised exactly.
* **From the encoder to the wire.** Callbacks of the encoder and audio frames reach the two writers in any order, and the
  writers share one queue. At any time, also between two packets of one call, what has been written reads as a beginning of
  the encoder's slices, of the first pair of parameter sets and of the audio frames, each in order and byte for byte, and as
  all of them when everything has been pushed and the queue has been drained (`EncoderToWire`, `WireGetsAll`). The units must
  be well formed, with adjacent SPS-PPS pairs, and nothing longer than its length field allows.
* **Order of keys.** The order that `isValidPublicKey` tests and ignores is had by exactly the squares modulo the prime, which
  are exactly half of the keys (`OrderExactlyIfSquare`, `HalfOfKeysHaveOrder`, from Fermat's little theorem).
* **Rotations.** `rotate90` and `rotate180` form the group of quarter turns. `rotate270` does not: it is a reflection.

## Where the code is not what its documentation says

* The messages at `dh.h:206-223` say that a public key must lie in 2..p-2; the code accepts 1..p-1. The two agree on exactly
  the keys other than 1 and p-1 (`DocumentedRangeExactly`). The key 1 makes the secret 1 (`KeyOneGivesOne`), the key p-1 makes
  it 1 or p-1 (`LastKeyGivesLastBit`).
* `dh.h:225-240` tests the order of the key, and only writes the result to the log. Exactly the squares modulo the prime pass
  (`OrderExactlyIfSquare`); p-1 is a key that does not (`WrongOrderIsAccepted`). What the code accepts and what
  comments and messages describe, range and order, agree on exactly the invalid keys and the squares other than 1
  (`DocumentedTestExactly`).
* `dh.h:113-126` passes a number of bytes where a number of bits is drawn: with a prime of 128 bytes the secret exponent has
  at most 127 bits (`ExponentsOf1024BitPrime`).
* `rotate270` is documented as a turn by 270 degrees; it is a reflection in the anti-diagonal. It undoes `rotate90` exactly
  on frames whose rows are symmetric (`Rotate270UndoesRotate90`), and it is three quarter turns exactly on frames whose
  columns are symmetric (`Rotate270IsThreeQuarterTurns`); `Rotate270IsNoRotation` gives a frame on which it is neither.
* The encoder's callbacks carry all units once and in order exactly if SPS and PPS occur only as adjacent pairs
  (`AllSentInOrder`), and all units once, in some order, exactly if they alternate (`AllSentOnce`). Otherwise units are dropped
  or sent again; `SpsDropped`, `SpsRepeated` and `SpsOvertaken` give a list for each way of failing.
* The video writer sends the unit after the first SPS as the PPS, whatever it is (`WriteShape`). A slice at that place is lost
  (`AllSlicesArriveExactlyIf`, `KeyFrameLost`). It also looks at the byte after an empty unit, which belongs to the next start
  code (`Mux.Peek`).
* `rtmp_sender_close` does not wait for the thread. The video writer does not test whether the connection is open, and the
  audio writer tests it through the pointer that the close has set to null. A run uses freed memory exactly if somebody
  pushes or closes again after a close, or the thread was between its connection test and its RTMP_Write when the close came
  and goes on (`FaultsExactlyIfMisused`, with `CloseDuringTurnFaults` and `PushAfterCloseFaults`).
* `rtmp_core.c:260-261` starts the thread before it sets `rtmp_state`. A thread that makes its first test in between exits for
  good, and nothing is ever written (`FirstTest`, `EarlyExitIsFinal`, `LostStart`).

## Assumptions

* HMAC-SHA256 is any function of message and key with a 32-byte result; RC4 is any byte stream that depends on the key.
* The prime is odd, needs at least two bytes and fits 128 bytes. A one-byte prime makes `MDH_generate_key` fail.
  Only `KeyOrder` needs more: that it is a prime, of the form 2q + 1 with q odd.
* A connection is two lossless, ordered byte streams. `ReadN` fails when the stream ends early, `WriteN` when the connection
  takes no more bytes; `EveryRunSucceeds` is about connections that do not break.
* Each push, each pop, each test of the thread and each close is one atomic step. They may be interleaved in any way.
* The application hands the callbacks to the video writer in their order, with audio frames anywhere between them
  (`WriteJobs`); the Java code in between is not part of this model.
* x264 is any function of the number of the call, the planes and the pts. `Pipeline` alone also assumes that its units begin
  with four-byte start codes, contain no other start code, and have a first byte that agrees with their type.
* Clocks and timestamps are parameters.

## Model

| member | source | states |
|---|---|---|
| Xtea.Rtmpe8Sig | app/src/main/cpp/librtmp/handshake.h:337-362 | the loop leaves the enciphered block at the output place and changes nothing else, also when input and output are one buffer |
| Xtea.Bijection | app/src/main/cpp/librtmp/handshake.h:337-362 | for every key, a decryption that runs the round sums backwards undoes the encryption, and the other way round |
| Xtea.MixBits | app/src/main/cpp/librtmp/handshake.h:347-351 | bit i of `((v << 4) ^ (v >> 5))` is set exactly if the bits i-4 and i+5 of v differ |
| Xtea.DeltaIsGoldenRatio | app/src/main/cpp/librtmp/handshake.h:339 | the constant is the integer part of (sqrt 5 - 1) 2^31 |
| Xtea.EncryptIsRecurrence | app/src/main/cpp/librtmp/handshake.h:337-362 | the result is the end of the recurrence over 66 half-words with the shifts 4 and 5, the round constant, and the key words chosen by bits 0, 1 and 11, 12 of the sum, all written out |
| KnownAnswers.XteaZeroVector | app/src/main/cpp/librtmp/handshake.h:337-362 | the zero block under the zero key gives the published dee9d4d8 f7131ed9 |
| Blowfish.BfEnc | app/src/main/cpp/librtmp/handshake.h:603-627 | the 16 swapping rounds on the two halves, in place, are the cipher under the key's current contents |
| Blowfish.Inverts | app/src/main/cpp/librtmp/handshake.h:600-627 | for every P-array, S-boxes and block, running the cipher again with the 18 subkeys in reverse order restores the block |
| Blowfish.FOpened | app/src/main/cpp/librtmp/handshake.h:600-602 | on the four bytes of a word, the most significant first: two S-box entries are added, then exclusive or, then addition |
| Blowfish.EncryptIsRecurrence | app/src/main/cpp/librtmp/handshake.h:603-627 | the result is the end of the recurrence x(i+2) = x(i) ^ F(x(i+1)) ^ P(i+1) over 18 words, the last two crosswise |
| Blowfish.GatherKey | app/src/main/cpp/librtmp/handshake.h:640-653 | the wrapping key cursor collects bytes (4i+k) mod keybytes, most significant first, and is left where the next subkey begins |
| Blowfish.FoldKey | app/src/main/cpp/librtmp/handshake.h:637-653 | the tables are copied and every subkey is folded with its cyclic key bytes |
| Blowfish.InitialWordsOpened | app/src/main/cpp/librtmp/handshake.h:637-653 | subkey i starts as the table's word exclusive or the key bytes 4i, ..., 4i+3 modulo the key length, the first of them most significant; the S-boxes start as the table's |
| Blowfish.BfSetKey | app/src/main/cpp/librtmp/handshake.h:629-672 | the key in place becomes the key schedule: 9 + 512 chained encryptions, each under the partly replaced key |
| Blowfish.ScheduleIsTheSolution | app/src/main/cpp/librtmp/handshake.h:655-671 | a key is the result of the schedule if and only if every pair of its words is the encryption of the pair before, under the key whose earlier words are new and whose later words are old |
| Blowfish.Rtmpe9Sig | app/src/main/cpp/librtmp/handshake.h:674-693 | key setup, little-endian load, encryption and store, in place, also when input and output are one buffer |
| Blowfish.Bijection | app/src/main/cpp/librtmp/handshake.h:674-693 | the type 9 signature is a bijection on 8-byte blocks for every key and every table |
| DiffieHellman.SharedSecretAgrees | app/src/main/cpp/librtmp/dh.h:108-164 | (g^a)^b = (g^b)^a mod p for all exponents and every modulus |
| DiffieHellman.HonestKeyIsValid | app/src/main/cpp/librtmp/dh.h:196-245 | 2^e mod p lies in 1..p-1 for every exponent and every odd p > 1, so that the test never rejects an honest key |
| DiffieHellman.DocumentedRangeExactly | app/src/main/cpp/librtmp/dh.h:206-223 | for every p > 1, the code's test agrees with the documented range 2..p-2 on exactly the keys other than 1 and p-1 |
| DiffieHellman.KeyOneGivesOne | app/src/main/cpp/librtmp/dh.h:349-376 | a peer key that decodes to 1 is accepted and makes the secret 1 for every exponent |
| DiffieHellman.LastKeyGivesLastBit | app/src/main/cpp/librtmp/dh.h:349-376 | a peer key that decodes to p-1 is accepted and makes the secret 1 or p-1, by the last bit of the exponent |
| DiffieHellman.WrongOrderIsAccepted | app/src/main/cpp/librtmp/dh.h:225-240 | for every p = 2q + 1 with q odd, one key that is accepted without the order: p-1 |
| KeyOrder.Fermat | app/src/main/cpp/librtmp/dh.h:225-240 | a^(p-1) = 1 mod p for every prime p that does not divide a; what the order test rests on |
| KeyOrder.OrderExactlyIfSquare | app/src/main/cpp/librtmp/dh.h:225-240 | for every prime p = 2q + 1 with q odd, an accepted key has the order that is tested, and only logged, if and only if it is a square modulo p |
| KeyOrder.DocumentedTestExactly | app/src/main/cpp/librtmp/dh.h:206-240 | the code accepts just what comments and messages describe, range and order, on exactly the invalid keys and the squares other than 1 |
| KeyOrder.OppositesDiffer | app/src/main/cpp/librtmp/dh.h:225-240 | y and p-y never both have the order; no primality is needed |
| KeyOrder.OneOfOpposites | app/src/main/cpp/librtmp/dh.h:225-240 | for a prime, exactly one of y and p-y has it |
| KeyOrder.HalfOfKeysHaveOrder | app/src/main/cpp/librtmp/dh.h:225-240 | exactly q of the 2q keys that are accepted have it: the 50% of the comment |
| KeyOrder.HonestKeyInheritsOrder | app/src/main/cpp/librtmp/dh.h:225-240 | if the generator has the order, every honest key has it; no primality is needed |
| KeyOrder.HonestKeyOrderExactly | app/src/main/cpp/librtmp/dh.h:225-240 | an honest key has the order if and only if its exponent is even or the generator has it |
| DiffieHellman.ByteLengthExact | app/src/main/cpp/librtmp/dh.h:93 | the byte count taken from the bit count is at most n exactly if the number is below 256^n |
| DiffieHellman.PublicKeyRoundTrip | app/src/main/cpp/librtmp/dh.h:313-327 | the left-padded 128-byte form of an honest key decodes to the key, and the peer accepts it |
| DiffieHellman.EncodeDigit | app/src/main/cpp/librtmp/dh.h:313-327 | byte i of the written form is the digit of weight 256^(n-1-i) |
| DiffieHellman.GeneratorIsTwo | app/src/main/cpp/librtmp/dh.h:267 | the written key is 2^e mod p |
| DiffieHellman.ExchangeAgrees | app/src/main/cpp/librtmp/dh.h:349-376 | two honest sides derive the same 128 bytes from each other's written keys, and neither rejects |
| DiffieHellman.Mdh.constructor | app/src/main/cpp/librtmp/dh.h:247-277 | p and g = 2 are set, and there is no key yet |
| DiffieHellman.Exponent | app/src/main/cpp/librtmp/dh.h:113-126 | whatever is drawn, the exponent has no more bits than the prime has bytes, less one |
| DiffieHellman.ExponentsOf1024BitPrime | app/src/main/cpp/librtmp/dh.h:113-126 | with a prime of 128 bytes that is 127 bits, and every number of 127 bits can be drawn |
| DiffieHellman.Mdh.GenerateKeyPair | app/src/main/cpp/librtmp/dh.h:108-141 | succeeds exactly if the count lies in 1..18000, and then holds an exponent of that many bits and its power of g |
| DiffieHellman.Mdh.GenerateKey | app/src/main/cpp/librtmp/dh.h:279-307 | the retry loop keeps the key of its first draw, for every randomness |
| DiffieHellman.Mdh.GetPublicKey | app/src/main/cpp/librtmp/dh.h:313-327 | writes exactly the 128-byte big-endian form, padded on the left; fails, writing nothing, exactly if there is no key or it does not fit |
| DiffieHellman.Mdh.ComputeKey | app/src/main/cpp/librtmp/dh.h:143-164 | for a prime that fits 128 bytes, the power in 128 bytes; the test of the prime's size never fails |
| DiffieHellman.Mdh.ComputeSharedSecret | app/src/main/cpp/librtmp/dh.h:349-376 | for a prime that fits 128 bytes: the shared secret if the peer's key is valid, otherwise -1 and an unchanged buffer |
| HandshakeBlock.GetDHOffset2 | app/src/main/cpp/librtmp/handshake.h:146-173 | the `exit(1)` cannot be reached, and the key region lies in bytes 8..766 |
| HandshakeBlock.GetDigestOffset2 | app/src/main/cpp/librtmp/handshake.h:175-200 | the `exit(1)` cannot be reached, and the digest lies in bytes 776..1534 |
| HandshakeBlock.GetDHOffset1 | app/src/main/cpp/librtmp/handshake.h:202-229 | the `exit(1)` cannot be reached, and the key region lies in bytes 772..1530 |
| HandshakeBlock.GetDigestOffset1 | app/src/main/cpp/librtmp/handshake.h:231-259 | the `exit(1)` cannot be reached, and the digest lies in bytes 12..770 |
| HandshakeBlock.OffsetsOpened | app/src/main/cpp/librtmp/handshake.h:146-259 | each offset is the sum of four bytes of the block modulo 632 or 728, counted from its base: bytes 8..11 from 12, 772..775 from 776, 1532..1535 from 772, 768..771 from 8 |
| HandshakeBlock.KeyKeepsPositions | app/src/main/cpp/librtmp/handshake.h:780-797 | writing the key moves neither offset and keeps bytes 0..7 |
| HandshakeBlock.DigestKeepsPositions | app/src/main/cpp/librtmp/handshake.h:797-803 | writing a digest moves neither offset and touches neither the key region nor bytes 0..7 |
| HandshakeBlock.SignedVerifies | app/src/main/cpp/librtmp/handshake.h:278-303 | a signed block verifies at the offset a reader computes from it, under either scheme and every key |
| HandshakeBlock.SignThenVerify | app/src/main/cpp/librtmp/handshake.h:766-807 | key first, then digest: the reader finds both where they were written, and verification succeeds |
| HandshakeBlock.SealBijection | app/src/main/cpp/librtmp/handshake.h:933-950 | sealing a signature block by block is undone by unsealing, for every type and digest |
| HandshakeFormat.SealFormat | app/src/main/cpp/librtmp/handshake.h:933-950 | each 8 bytes are sealed with XTEA for type 8, Blowfish for type 9, under the key that byte 8j of the digest modulo 15 selects, and left alone for other types |
| HandshakeBlock.SealInPlace | app/src/main/cpp/librtmp/handshake.h:933-950 | the sealing loop over the last 32 bytes of a buffer seals all four blocks and changes nothing else |
| HandshakeCode.DigestInto | app/src/main/cpp/librtmp/handshake.h:278-291 | the digest over the block without its own place is written, also into the block itself |
| HandshakeCode.WriteOpening | app/src/main/cpp/librtmp/handshake.h:729-807 | the filled buffer is the opening block of the specification, with the offsets and the key pair that belong to it; it fails exactly if there is none |
| HandshakeCode.Rtmp.StoreToken | app/src/main/cpp/librtmp/handshake.h:868-881 | the SWF token is two bytes, the size twice, and the HMAC keyed by the last 32 bytes of the server's block; it is stored exactly if there is a player file |
| HandshakeCode.FindPeer | app/src/main/cpp/librtmp/handshake.h:850-866 | the scheme under which the peer's digest verifies, the expected one first; fails exactly if it verifies under neither |
| HandshakeCode.SignAnswer | app/src/main/cpp/librtmp/handshake.h:884-953 | once the digest has verified: keys are derived, and the answer is signed and sealed in place, also when it is the peer's own block; it fails exactly if the key is not valid |
| HandshakeCode.SignToServer | app/src/main/cpp/librtmp/handshake.h:845-953 | the client's signed answer and its token are those of the specification, on every failure too |
| HandshakeCode.IsGenuine | app/src/main/cpp/librtmp/handshake.h:984-1036 | true exactly if the last 32 bytes are the sealed signature that our own digest calls for |
| HandshakeCode.Conclude | app/src/main/cpp/librtmp/handshake.h:972-1068 | the outcome and the installed streams are those of the specification, for every input |
| HandshakeCode.ReplyToServer | app/src/main/cpp/librtmp/handshake.h:838-1068 | the client from the server's first block on, for every input and wherever the connection breaks |
| HandshakeCode.AnswerServer | app/src/main/cpp/librtmp/handshake.h:817-1068 | the client from its first read on, for every input and wherever the connection breaks |
| HandshakeCode.HandShake | app/src/main/cpp/librtmp/handshake.h:695-1069 | for every input, and for every number of bytes after which writing fails: the client writes, returns, installs and stores what its specification says, also at every `return FALSE` |
| HandshakeCode.AnswerClient | app/src/main/cpp/librtmp/handshake.h:1212-1418 | the server from its first write on, for every input and wherever the connection breaks |
| HandshakeCode.WelcomeClient | app/src/main/cpp/librtmp/handshake.h:1116-1418 | the server from its choice of mode on, for every input and wherever the connection breaks |
| HandshakeCode.SHandShake | app/src/main/cpp/librtmp/handshake.h:1071-1419 | the same for the server, which also turns encryption on exactly for types 6 and 8 |
| HandshakeFormat.ClientHelloFormat | app/src/main/cpp/librtmp/handshake.h:695-815 | byte by byte: the type 6 or 3, clock, version, random bytes, the public key 2^e mod p and, at its offset, the HMAC of the other 1504 bytes under the first 30 bytes of the player key |
| HandshakeFormat.ServerHelloFormat | app/src/main/cpp/librtmp/handshake.h:1098-1202 | byte by byte: the type answered, clock, version 3.5.1.1, random bytes, the public key and, at its offset, the HMAC of the other 1504 bytes under the first 36 bytes of the server key |
| HandshakeFormat.ClientAnswerFormat | app/src/main/cpp/librtmp/handshake.h:838-969 | a plain client or a plain server: the server's block; otherwise random bytes and the sealed HMAC under the HMAC of the server's digest with all 62 bytes of the player key; and the streams keyed by 16 bytes of the HMACs of both public keys under the secret |
| HandshakeFormat.ServerAnswerFormat | app/src/main/cpp/librtmp/handshake.h:1212-1329 | the client's block with its last 32 bytes replaced by the sealed HMAC under the HMAC of the client's digest with all 68 bytes of the server key; and the streams likewise |
| HandshakeFormat.ClientFinishFormat | app/src/main/cpp/librtmp/handshake.h:972-1058 | a signed client returns TRUE if and only if the last 32 bytes are what 68 bytes of the server key and its own digest call for; its streams have then used 1536 bytes |
| HandshakeFormat.ServerFinishFormat | app/src/main/cpp/librtmp/handshake.h:1332-1408 | a signed server returns TRUE if and only if the last 32 bytes are what 62 bytes of the player key and its own digest call for; its streams have then used 1536 bytes |
| HandshakeFormat.TokenFormat | app/src/main/cpp/librtmp/handshake.h:868-881 | byte by byte: 1, 1, the size twice in four bytes, the HMAC of the hash under bytes 1504..1535 of the server's block |
| HandshakeAgreement.OpeningIsReadable | app/src/main/cpp/librtmp/handshake.h:729-807 | with a good prime, an opening can always be made, verifies, and shows its public key at the offset its writer used |
| HandshakeAgreement.SecretIsShared | app/src/main/cpp/librtmp/handshake.h:884-908 | both sides derive one secret from the key found in the other's block |
| HandshakeAgreement.ClientAnswers | app/src/main/cpp/librtmp/handshake.h:845-953 | the server's block verifies at the first offset tried, its key is accepted, and the client's answer and streams are those of the script |
| HandshakeAgreement.ServerAnswers | app/src/main/cpp/librtmp/handshake.h:1212-1315 | the same for the client's block and the server's answer |
| HandshakeAgreement.KeysCross | app/src/main/cpp/librtmp/handshake.h:113-142 | in an encrypted run, `InitRC4Encryption` gives each side, from its own exponent, its own block and the key it finds in the other's, the streams of the other, crossed |
| HandshakeAgreement.HandshakeSucceeds | app/src/main/cpp/librtmp/handshake.h:695-1419 | in plain, type 3 signed and encrypted (type 6 answered as 8) modes, for all randomness: fed each other's bytes, both sides write exactly those bytes and return TRUE |
| HandshakeAgreement.TokensAgree | app/src/main/cpp/librtmp/handshake.h:868-881 | both sides store the same SWF token, made from the server's first block, exactly if there is a player file |
| HandshakeAgreement.FinishChecksPlainSignature | app/src/main/cpp/librtmp/handshake.h:984-1036 | a signed end succeeds if and only if the last 32 bytes, unsealed, are the HMAC of the bytes before them |
| HandshakeAgreement.ClientStreams | app/src/main/cpp/librtmp/handshake.h:826-1058 | against any peer: a client that returns TRUE holds streams exactly if it asked for encryption and the server did not answer as a plain one |
| HandshakeAgreement.ServerStreams | app/src/main/cpp/librtmp/handshake.h:1089-1408 | against any peer: a server that returns TRUE holds streams exactly if the client opened with type 6 or 8 |
| HandshakeNetwork.ClientMoves | app/src/main/cpp/librtmp/handshake.h:695-1069 | the client can move exactly when the bytes it waits for have been sent, and then follows the script |
| HandshakeNetwork.ServerMoves | app/src/main/cpp/librtmp/handshake.h:1071-1419 | the same for the server |
| HandshakeNetwork.RunFollowsScript | app/src/main/cpp/librtmp/handshake.h:695-1419 | every reachable state of client, server and channels is determined by how many steps each has taken |
| HandshakeNetwork.EveryRunSucceeds | app/src/main/cpp/librtmp/handshake.h:695-1419 | in every run no side fails, there are at most eight steps, and a run that is stuck has ended in success with empty channels and crossed, equal streams |
| HandshakeNetwork.ClientProcessIsRun | app/src/main/cpp/librtmp/handshake.h:695-1069 | fed any bytes whatsoever, the client process writes and ends as the specification of `HandShake` does |
| HandshakeNetwork.ServerProcessIsRun | app/src/main/cpp/librtmp/handshake.h:1071-1419 | the same for the server process and `SHandShake` |
| SessionStream.CryptAllIsCrypt | app/src/main/cpp/librtmp/handshake.h:113-142 | how data is cut into calls on one stream makes no difference |
| SessionStream.SessionDelivers | app/src/main/cpp/librtmp/handshake.h:1038-1056 | the streams that these lines install and advance are in step: whatever one side encrypts with its outgoing stream, the other decrypts with its incoming one, both ways and with any cuts (the code that encrypts session data is not part of this model) |
| AnnexB.FindStartCode | app/src/main/cpp/rtmp_core.c:472-487 | 1 exactly for the given number of zeros followed by a one |
| AnnexB.NextCodeIsFirst | app/src/main/cpp/rtmp_core.c:503-516 | no start code lies before the one that is found |
| AnnexB.Scan | app/src/main/cpp/rtmp_core.c:503-516 | either loop stops at the first start code, or gives up within three bytes of the end exactly if there is none |
| AnnexB.GetNal | app/src/main/cpp/rtmp_core.c:497-539 | the next unit lies between the next start code and the one after it or the end; each success moves on by at least 4; NULL leaves the offset alone |
| AnnexB.JoinAfterSplit | app/src/main/cpp/rtmp_core.c:489-539 | for every buffer, the bytes before the first start code and the re-joined units are the buffer |
| AnnexB.SplitAfterJoin | app/src/main/cpp/rtmp_core.c:489-539 | units without start codes come back from their joined form, also when they are empty or end in zeros |
| AnnexB.SplitUndoesJoin | app/src/main/cpp/rtmp_core.c:489-539 | they come back if and only if none of them contains a start code |
| FlvTag.ParseBody | app/src/main/cpp/rtmp_core.c:609-640 | the bodies of all layouts, the configuration record included, parse back to the same tag |
| FlvTag.AudioTagHeaderIs | app/src/main/cpp/rtmp_core.c:112-171 | AAC, 44 kHz, 16 bits, stereo: 0xAF |
| FlvTag.HeaderLayout | app/src/main/cpp/rtmp_core.c:600-610 | the eleven bytes before a body, one by one |
| FlvTag.SliceLayout | app/src/main/cpp/rtmp_core.c:657-676 | the bytes of a slice's body, one by one, with no composition time |
| FlvTag.RecordLayout | app/src/main/cpp/rtmp_core.c:612-635 | the first bytes of the configuration record, one by one |
| FlvTag.RecordContents | app/src/main/cpp/rtmp_core.c:612-635 | where SPS and PPS and their lengths are |
| FlvTag.DemuxUndoesTagBytes | app/src/main/cpp/rtmp_core.c:397-468 | a reader gets back type, size, full 32-bit timestamp, stream id byte and payload, whatever the last four bytes hold, if and only if the lengths fit their fields |
| Mux.WriteShape | app/src/main/cpp/rtmp_core.c:575-759 | one call sends the first SPS with the unit after it, every other slice in order, and nothing else; it gives up exactly if the SPS to be sent is the last unit |
| Mux.KindsOfUnits | app/src/main/cpp/rtmp_core.c:580-708 | an SPS begins with 0x67, a slice is a unit of type 1 or 5, a key frame one of type 5 |
| Mux.HeaderSetsTheBit | app/src/main/cpp/rtmp_core.c:580-645 | a call writes a sequence header exactly if it turns the configuration bit on, and the bit stays on |
| Mux.OneHeaderInAll | app/src/main/cpp/rtmp_core.c:580-645 | any number of calls writes at most one sequence header |
| RtmpSender.AvcHeaderPacket | app/src/main/cpp/rtmp_core.c:593-642 | the fresh buffer holds exactly the tag of the configuration record in bytes 0..11+body_len-1 of output_len |
| RtmpSender.AvcSlicePacket | app/src/main/cpp/rtmp_core.c:648-694 | the same for key frames and inter frames |
| RtmpSender.AudioPacket | app/src/main/cpp/rtmp_core.c:397-468 | the same for both audio layouts |
| RtmpSender.Sender.Submit | app/src/main/cpp/rtmp_core.c:641-643 | the packet joins the queue behind all others, whose contents stay as they were |
| RtmpSender.Sender.WriteUnit | app/src/main/cpp/rtmp_core.c:579-757 | one turn of the loop does one step of the fold over the units |
| RtmpSender.Sender.WriteUnits | app/src/main/cpp/rtmp_core.c:575-757 | the loop terminates and queues the tags of the fold over all units |
| RtmpSender.Sender.WriteVideoFrame | app/src/main/cpp/rtmp_core.c:547-760 | the packets queued by a call hold exactly the tags of the fold over the split buffer; the bit and the return code are those of the fold |
| RtmpSender.Sender.WriteAudioFrame | app/src/main/cpp/rtmp_core.c:377-470 | the first frame gives its first two bytes as the AAC header, every later frame is queued whole; without connection or data nothing changes |
| Receiver.QueuedPacketsCarry | app/src/main/cpp/rtmp_core.c:641-643 | the queued arrays are packets that carry the tags of the writers |
| Receiver.PacketsAreRead | app/src/main/cpp/rtmp_core.c:575-759 | demultiplexing packets gives the slices and parameter sets of their tags |
| Receiver.WrittenContent | app/src/main/cpp/rtmp_core.c:575-759 | the tags of one call contain every slice of type 1 or 5 that is not the unit after the first SPS, marked as a key frame exactly for type 5 |
| Receiver.AllSlicesArriveExactlyIf | app/src/main/cpp/rtmp_core.c:580-646 | every slice of a call arrives if and only if the bit is already on, or no slice follows directly on the first SPS |
| Receiver.SliceAfterSpsLost | app/src/main/cpp/rtmp_core.c:588-646 | a slice that follows directly on the SPS is sent as if it were the PPS, and does not arrive as a slice |
| Receiver.KeyFrameLost | app/src/main/cpp/rtmp_core.c:588-646 | a concrete SPS and key frame for which this happens |
| Receiver.InterFrameArrives | app/src/main/cpp/rtmp_core.c:708-756 | a buffer with one inter frame is sent as one inter-frame tag and arrives as one slice |
| Receiver.OnlyVideoCounts | app/src/main/cpp/rtmp_core.c:377-759 | audio tags between video tags change nothing for what is read as video |
| Receiver.OnlyAudioCounts | app/src/main/cpp/rtmp_core.c:377-759 | the audio among some tags is exactly the tags of type 8 |
| Receiver.StreamRoundTrip | app/src/main/cpp/rtmp_core.c:489-759 | from units through start codes, scanner, writer and demultiplexer: those slices and the parameter sets come back in order and byte for byte |
| Mux.AudioShape | app/src/main/cpp/rtmp_core.c:397-468 | any number of frames gives one header, from the first, and then every later frame whole |
| Receiver.AudioRoundTrip | app/src/main/cpp/rtmp_core.c:377-470 | a receiver of those packets reads the configuration and every later frame, in order and byte for byte |
| LinkedQueue.LinkedQueue.constructor | app/src/main/cpp/safe_queue.c:17-27 | a new queue is empty |
| LinkedQueue.LinkedQueue.Push | app/src/main/cpp/safe_queue.c:30-53 | one node more at the end; the result is the new length; front, rear and length agree with the contents |
| LinkedQueue.LinkedQueue.IsEmpty | app/src/main/cpp/safe_queue.c:55-57 | true exactly if there are no contents |
| LinkedQueue.LinkedQueue.Pop | app/src/main/cpp/safe_queue.c:59-82 | the first node leaves the chain, the rest stays in order; null exactly on an empty queue |
| LinkedQueue.LinkedQueue.Free | app/src/main/cpp/safe_queue.c:85-98 | every remaining node and payload is freed exactly once, front to rear |
| Pusher.StepConserves | app/src/main/cpp/rtmp_core.c:89-110 | every step of writers, thread, network and close, at any time, keeps the conservation law |
| Pusher.EveryRunConserves | app/src/main/cpp/rtmp_core.c:89-110 | after every schedule, with a close at any position of the thread: written ++ in hand ++ queue ++ dropped by the close = pushed, and each written payload is freed once |
| Pusher.FaultsExactlyIfMisused | app/src/main/cpp/rtmp_core.c:294-305 | a run uses freed memory if and only if, after a close, somebody pushes or closes again, or a thread goes on that stood between its connection test and its RTMP_Write when the close came |
| Pusher.CloseDuringTurnFaults | app/src/main/cpp/rtmp_core.c:294-305 | a concrete run with a close while the thread is about to look into the queue |
| Pusher.PushAfterCloseFaults | app/src/main/cpp/rtmp_core.c:641-643 | a concrete run with a frame that arrives after the close |
| Pusher.ThreadDrains | app/src/main/cpp/rtmp_core.c:89-110 | from its first test, a running thread left alone writes out and frees the whole queue in order, in seven steps an item |
| Pusher.RunningThreadDrains | app/src/main/cpp/rtmp_core.c:89-110 | from any position in its loop, it writes out and frees what it holds and the whole queue, in order |
| Pusher.FirstTest | app/src/main/cpp/rtmp_core.c:260-261 | in every schedule without misuse: the thread survives its first test if and only if `rtmp_state` was set before it and no close has reset it |
| Pusher.EarlyExitIsFinal | app/src/main/cpp/rtmp_core.c:89-110 | if it does not, nothing is written in any continuation of the schedule |
| Pusher.CanWriteExactlyIf | app/src/main/cpp/rtmp_core.c:260-261 | the thread can write anything in some continuation if and only if, before its first test, the state was set and the connection neither closed nor lost |
| Pusher.LostStart | app/src/main/cpp/rtmp_core.c:260-261 | started, first test, state set, in this order: all later pushes are accepted, and none is ever written |
| Pusher.PushingThread.Turn | app/src/main/cpp/rtmp_core.c:89-110 | one evaluation of the loop condition and one execution of the body on the linked queue, with the write, the counter and the free: exactly what the thread's steps do when nobody else moves |
| Plane.AntiTransposeUndoesTurn | app/src/main/java/com/coder/x264cmake/utils/YUV420Utils.java:94-126 | for one plane: the reflection undoes a quarter turn if and only if the rows are symmetric |
| Permutation.RearrangedIsPermutation | app/src/main/java/com/coder/x264cmake/utils/YUV420Utils.java:40-126 | a plane filled from pairwise different positions is a permutation of the other |
| Nv21.TwoQuarterTurns | app/src/main/java/com/coder/x264cmake/utils/YUV420Utils.java:40-85 | `rotate90` twice is `rotate180`, luma and pairs together |
| Nv21.HalfTurnTwice | app/src/main/java/com/coder/x264cmake/utils/YUV420Utils.java:70-85 | `rotate180` undoes itself |
| Nv21.FourQuarterTurns | app/src/main/java/com/coder/x264cmake/utils/YUV420Utils.java:40-61 | four quarter turns are the identity |
| Nv21.Rotate270Twice | app/src/main/java/com/coder/x264cmake/utils/YUV420Utils.java:94-126 | `rotate270` with swapped sides undoes itself |
| Nv21.Rotate270IsRotate90Reversed | app/src/main/java/com/coder/x264cmake/utils/YUV420Utils.java:94-126 | `rotate270` is `rotate90` with the rows of both planes in reverse order |
| Nv21.Rotate270UndoesRotate90 | app/src/main/java/com/coder/x264cmake/utils/YUV420Utils.java:94-126 | it undoes `rotate90` if and only if the rows of both planes are symmetric |
| Nv21.Rotate270IsThreeQuarterTurns | app/src/main/java/com/coder/x264cmake/utils/YUV420Utils.java:87-126 | it is three quarter turns, as documented, if and only if the columns of both planes are symmetric |
| Nv21.Rotate270IsNoRotation | app/src/main/java/com/coder/x264cmake/utils/YUV420Utils.java:87-126 | a 2 by 2 frame on which it is neither |
| Nv21.RotationsPermute | app/src/main/java/com/coder/x264cmake/utils/YUV420Utils.java:40-126 | all three rotations keep every luma sample and every (V, U) pair |
| Nv21.DeinterleaveCommutes | app/src/main/java/com/coder/x264cmake/utils/YUV420Utils.java:15-126 | rotating and then separating U and V is separating and then rotating, for all three rotations |
| Nv21Code.Rotate90Frame | app/src/main/java/com/coder/x264cmake/utils/YUV420Utils.java:40-61 | for even sides: the fresh array is the frame with both planes turned |
| Nv21Code.TurnLuma | app/src/main/java/com/coder/x264cmake/utils/YUV420Utils.java:42-49 | for even sides: the first loop fills every luma byte, in order |
| Nv21Code.TurnChroma | app/src/main/java/com/coder/x264cmake/utils/YUV420Utils.java:50-59 | for even sides: the second loop fills every chroma byte from the end and leaves the luma bytes alone |
| Nv21Code.Rotate180Frame | app/src/main/java/com/coder/x264cmake/utils/YUV420Utils.java:70-85 | for even sides: the fresh array is the frame turned by half, the bytes of each pair in order |
| Nv21Code.Rotate270Frame | app/src/main/java/com/coder/x264cmake/utils/YUV420Utils.java:94-126 | for even sides: transposing both planes and then `rotate180` on the swapped shape gives the reflection |
| Nv21Code.TransposeLumaPlane | app/src/main/java/com/coder/x264cmake/utils/YUV420Utils.java:106-115 | for even sides: the first loops transpose the luma plane |
| Nv21Code.TransposeChromaPlane | app/src/main/java/com/coder/x264cmake/utils/YUV420Utils.java:116-124 | for even sides: the second loops transpose the plane of pairs and leave the luma bytes alone |
| Nv21Code.ToI420Frame | app/src/main/java/com/coder/x264cmake/utils/YUV420Utils.java:15-30 | for even sides and a whole frame: luma, then all of U, then all of V |
| Regroup.AllSentInOrder | app/src/main/cpp/x264_encode.c:181-202 | every unit is sent exactly once and in order if and only if SPS and PPS occur only as adjacent pairs |
| Regroup.AllSentOnce | app/src/main/cpp/x264_encode.c:181-202 | every unit is sent exactly once, in some order, if and only if SPS and PPS alternate, SPS first and PPS last, with anything between them |
| Regroup.SpsDropped | app/src/main/cpp/x264_encode.c:181-202 | an SPS that no PPS follows is dropped |
| Regroup.SpsRepeated | app/src/main/cpp/x264_encode.c:181-202 | an SPS before two PPS is sent twice |
| Regroup.SpsOvertaken | app/src/main/cpp/x264_encode.c:181-202 | an SPS whose PPS does not follow at once is sent once, but after the unit in between |
| Regroup.CallbacksCarryAll | app/src/main/cpp/x264_encode.c:181-202 | then the callbacks concatenate to the payloads of all units |
| Regroup.Deliver | app/src/main/cpp/x264_encode.c:181-202 | the loop with `sps_i` makes exactly the callbacks of the specification |
| Regroup.KindsOfNals | app/src/main/cpp/x264_encode.c:181-187 | an SPS is a unit of type 7, a PPS one of type 8 |
| Regroup.SpsIndexIsLast | app/src/main/cpp/x264_encode.c:181-187 | `sps_i` is the last unit of type 7 so far, or 0 |
| Regroup.JoinPayloads | app/src/main/cpp/x264_encode.c:188-196 | the buffer for an SPS and a PPS holds one after the other |
| X264Encoder.PlanesCoverFrame | app/src/main/cpp/x264_encode.c:143-170 | in all four formats the planes take the bytes of the frame once and in order, also for odd sizes |
| X264Encoder.PlaneLengths | app/src/main/cpp/x264_encode.c:145-169 | how many planes each of the four formats has and how long each is |
| X264Encoder.Formats | app/src/main/cpp/x264_encode.c:70-88 | 1 is NV21, 2 is I422, 3 is I444, every other number is I420 |
| X264Encoder.FeedLeavesNothing | app/src/main/cpp/x264_encode.c:221-250 | calls that do not interrupt each other leave the queue empty, also when the encoder fails, and give every frame to the encoder in order |
| X264Encoder.RunSendsCallbacks | app/src/main/cpp/x264_encode.c:181-202 | the application gets the callbacks of all lists of units that the encoder returned, in order |
| X264Encoder.PtsCountSuccesses | app/src/main/cpp/x264_encode.c:172-203 | in every run from initialisation, the pts of a frame is the number of frames encoded before it, so that a failed frame's pts is used again |
| X264Encoder.EncoderIsAskedWithPts | app/src/main/cpp/x264_encode.c:172-203 | x264 is asked with that pts and those planes, and its answer decides the callbacks and the result |
| X264Encoder.Encoder.Init | app/src/main/cpp/x264_encode.c:42-126 | fails exactly if already initialised or without a path; otherwise starts with an empty queue, the chosen format and pts 0 |
| X264Encoder.Encoder.EncodeData | app/src/main/cpp/x264_encode.c:129-205 | takes one frame off the queue and does what the specification says with it; the pts advances only on success |
| X264Encoder.Encoder.Restart | app/src/main/cpp/x264_encode.c:233-247 | for every waiting queue: encodes until a frame fails or none is left, terminates, and is stopped afterwards |
| X264Encoder.Encoder.EncData | app/src/main/cpp/x264_encode.c:221-250 | the frame joins the queue; a stopped encoder drains it and is stopped again, a running one is left to its outer call |
| Pipeline.CallbackSplits | app/src/main/cpp/x264_encode.c:181-202 | the scanner finds in a callback exactly the units it was made of |
| Pipeline.WriteConcat | app/src/main/cpp/rtmp_core.c:575-759 | writing two lists one after the other is writing their concatenation, unless the first ends in an SPS still to be sent |
| Pipeline.FramesAreOneList | app/src/main/cpp/rtmp_core.c:575-759 | frames written in separate calls give the tags of one call with all their units |
| Pipeline.EncoderToTags | app/src/main/cpp/x264_encode.c:181-202 | with paired parameter sets, all callbacks of all encoder calls queue one sequence header, the first pair, and every slice in order, and no call gives up |
| Pipeline.AllCallbacksAreWritable | app/src/main/cpp/x264_encode.c:181-202 | every callback made of well-formed units is a buffer that the video writer reads without running over its end |
| Pipeline.AllTagsFit | app/src/main/cpp/rtmp_core.c:593-694 | if parameter sets are shorter than 2^16 and slices than 2^24 - 9 bytes, all those tags fit their length fields |
| Pipeline.EncoderToTagsRead | app/src/main/cpp/x264_encode.c:181-202 | of those tags, a receiver reads every slice of every encoder call, in order and byte for byte, and exactly one pair of parameter sets |
| Wire.VideoAmongTags | app/src/main/cpp/rtmp_core.c:547-760 | when callbacks and audio frames are written in any order, the video tags among all tags are those of the callbacks alone |
| Wire.AudioAmongTags | app/src/main/cpp/rtmp_core.c:377-470 | and the audio tags are those of the audio frames alone that came while RTMP was connected |
| Wire.CallWriter | app/src/main/cpp/rtmp_core.c:377-760 | one call of either writer queues packets that hold the tags of its job, and leaves all packets before them as they were |
| Wire.WriteJob | app/src/main/cpp/rtmp_core.c:377-760 | after it, the packets of all jobs so far carry the tags of all jobs so far, and the configuration bits are those of all jobs so far |
| Wire.WriteJobs | app/src/main/cpp/rtmp_core.c:377-760 | callbacks and audio frames in any order, each with its own timestamp: the packets queued carry the tags of all of them |
| Wire.AllTagsHeard | app/src/main/cpp/x264_encode.c:129-250 | from the frames given to `x264_enc_data` on, failed ones included: all those tags fit their fields and are read as promised, slices, parameter sets and audio |
| Wire.EncoderToWire | app/src/main/cpp/rtmp_core.c:89-110 | under every schedule, whenever the packets pushed so far carry the first m of those tags, for any m: what the thread has written reads as a beginning of what is promised, video and audio; and as all of it when m is all and everything pushed is written |
| Wire.WireGetsAll | app/src/main/cpp/rtmp_core.c:89-110 | a thread anywhere in its loop, left alone, writes everything that has been pushed |

## Left out

- HandshakeCode.HandShake and HandshakeCode.SHandShake are each split into several methods, and steps that both functions spell out are one method of both; `_DEBUG` fills are left out. The body of `AMF_EncodeInt32` is not part of this model: it is any function to four bytes.
- DiffieHellman.Mdh.GetPublicKey and the others: the OpenSSL and PolarSSL variants of `dh.h` are left out; the GnuTLS form is the one that spells out its arithmetic. Failing allocations and failing hex conversion are left out, and so is the cryptographic strength of everything.
- AnnexB.GetNal: does not model buffers of fewer than three bytes, for which `total - 3` wraps around as an unsigned number.
- RtmpSender.Sender.WriteVideoFrame: buffers that end in a bare start code and buffers of fewer than three bytes are excluded, because the source then reads beyond them. Sizes are unbounded; the 32-bit arithmetic on them is not modelled.
- RtmpSender.Sender.WriteAudioFrame: a first frame of fewer than two bytes is excluded, because the source reads two bytes whatever the size.
- RtmpSender: read-only input buffers are sequences, so that aliasing of input and queue is not captured; packets are arrays.
- LinkedQueue.LinkedQueue.Push: the length is unbounded, and allocation succeeds.
- Pusher: data races inside `push_data`, `pop_data` and `rtmp_sender_close`, which take no lock: each is one step. Nothing is said about a run after it has used freed memory, and a second `rtmp_pusher_open` is left out. `RTMP_Write` is the log `written`; its result is ignored, as in the source.
- Connection set-up, AMF metadata and publishing: `RTMP_Connect` and `RTMP_Write` are in a library that is not part of this model.
- Nv21Code.Rotate90Frame, Nv21Code.Rotate180Frame and Nv21Code.Rotate270Frame: odd widths and heights are excluded, and so are arrays shorter than a frame, for which the source throws.
- X264Encoder.Encoder.EncData: a release or a further frame that arrives from inside a callback, which the state test in the loop is for, is left out, and so are release and re-initialisation. Frame buffers are values, so that freeing one too early is not captured; that the queue is empty after the call is.
- Pipeline: the lengths of real start codes; four bytes are assumed.
- The faac and fdk-aac drivers have the same drain loop as the x264 driver and are not modelled again; libyuv, x264, faac and fdk-aac themselves, the JNI layer, the Java activities, the camera and OpenGL are left out.
