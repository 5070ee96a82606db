/** The 1536-byte handshake block: where its Diffie-Hellman key and its digest hide, and how the final signature is
    sealed. */
module HandshakeBlock {
  import opened Bytes
  import Words
  import Xtea
  import Blowfish

  const SIG_SIZE: nat := 1536
  const DIGEST_LENGTH: nat := 32
  const DH_LENGTH: nat := 128

  type Block = s: Bytes | |s| == SIG_SIZE witness seq(SIG_SIZE, _ => 0)
  type Digest = s: Bytes | |s| == DIGEST_LENGTH witness seq(DIGEST_LENGTH, _ => 0)

  type Quad = s: Bytes | |s| == 4 witness [0, 0, 0, 0]

  /** HMAC-SHA256 of (message, key), of which nothing is known but the length of its result. */
  type Hmac = (Bytes, Bytes) -> Digest

  // ------------------------------------------------------------- positions

  /** The two placement schemes, in the order of the tables `digoff` and `dhoff`. */
  datatype Scheme = Scheme1 | Scheme2 {
    function Other(): Scheme { if Scheme1? then Scheme2 else Scheme1 }
  }

  function SumOfFour(h: Block, at: nat): nat
    requires at + 4 <= SIG_SIZE
  {
    (h[at] as nat) + (h[at + 1] as nat) + (h[at + 2] as nat) + (h[at + 3] as nat)
  }

  /** The common part of the four offset functions; None stands for their `exit(1)`. */
  function Position(sum: nat, modulus: nat, base: nat, size: nat, limit: nat): Option<nat>
    requires modulus > 0
  {
    var res := sum % modulus + base;
    if res + size > limit then None else Some(res)
  }

  function GetDHOffset2(h: Block): (r: Option<nat>)
    ensures r.Some? && 8 <= r.value && r.value + DH_LENGTH <= 767
  {
    Position(SumOfFour(h, 768), 632, 8, DH_LENGTH, 767)
  }

  function GetDigestOffset2(h: Block): (r: Option<nat>)
    ensures r.Some? && 776 <= r.value && r.value + DIGEST_LENGTH <= 1535
  {
    Position(SumOfFour(h, 772), 728, 776, DIGEST_LENGTH, 1535)
  }

  function GetDHOffset1(h: Block): (r: Option<nat>)
    ensures r.Some? && 772 <= r.value && r.value + DH_LENGTH <= 1531
  {
    Position(SumOfFour(h, 1532), 632, 772, DH_LENGTH, 1531)
  }

  function GetDigestOffset1(h: Block): (r: Option<nat>)
    ensures r.Some? && 12 <= r.value && r.value + DIGEST_LENGTH <= 771
  {
    Position(SumOfFour(h, 8), 728, 12, DIGEST_LENGTH, 771)
  }

  /** `r` is what remains of `sum` modulo `modulus`, counted from `base`. */
  ghost predicate IsRemainder(r: nat, sum: nat, modulus: nat, base: nat) {
    base <= r < base + modulus && exists q: nat :: sum + base == r + Multiple(modulus, q)
  }

  function Multiple(modulus: nat, q: nat): nat { modulus * q }

  /** The four positions, from the bytes of the block that select them. */
  lemma OffsetsOpened(h: Block)
    ensures IsRemainder(GetDigestOffset1(h).value, h[8] as nat + h[9] as nat + h[10] as nat + h[11] as nat, 728, 12)
    ensures IsRemainder(GetDHOffset1(h).value,
                        h[1532] as nat + h[1533] as nat + h[1534] as nat + h[1535] as nat, 632, 772)
    ensures IsRemainder(GetDHOffset2(h).value, h[768] as nat + h[769] as nat + h[770] as nat + h[771] as nat, 632, 8)
    ensures IsRemainder(GetDigestOffset2(h).value,
                        h[772] as nat + h[773] as nat + h[774] as nat + h[775] as nat, 728, 776)
  {
    PositionOpened(SumOfFour(h, 8), 728, 12);
    PositionOpened(SumOfFour(h, 1532), 632, 772);
    PositionOpened(SumOfFour(h, 768), 632, 8);
    PositionOpened(SumOfFour(h, 772), 728, 776);
  }

  lemma PositionOpened(sum: nat, modulus: nat, base: nat)
    requires modulus > 0
    ensures IsRemainder(sum % modulus + base, sum, modulus, base)
  {
    assert sum + base == sum % modulus + base + Multiple(modulus, sum / modulus);
  }

  function DhOffset(scheme: Scheme, h: Block): (r: nat)
    ensures 8 <= r && r + DH_LENGTH <= SIG_SIZE
  {
    match scheme
    case Scheme1 => GetDHOffset1(h).value
    case Scheme2 => GetDHOffset2(h).value
  }

  function DigestOffset(scheme: Scheme, h: Block): (r: nat)
    ensures 8 <= r && r + DIGEST_LENGTH <= SIG_SIZE
  {
    match scheme
    case Scheme1 => GetDigestOffset1(h).value
    case Scheme2 => GetDigestOffset2(h).value
  }

  // --------------------------------------------------------------- digests

  /** The block without the 32 bytes at `pos`. */
  function Message(h: Block, pos: nat): Bytes
    requires pos + DIGEST_LENGTH <= SIG_SIZE
  {
    h[..pos] + h[pos + DIGEST_LENGTH..]
  }

  function CalculateDigest(pos: nat, h: Block, key: Bytes, hmac: Hmac): Digest
    requires pos + DIGEST_LENGTH <= SIG_SIZE
  {
    hmac(Message(h, pos), key)
  }

  predicate VerifyDigest(pos: nat, h: Block, key: Bytes, hmac: Hmac)
    requires pos + DIGEST_LENGTH <= SIG_SIZE
  {
    h[pos..pos + DIGEST_LENGTH] == CalculateDigest(pos, h, key, hmac)
  }

  /** The block with a public key written at its place. */
  function WithKey(scheme: Scheme, h: Block, pub: Bytes): Block
    requires |pub| == DH_LENGTH
  {
    Splice(h, DhOffset(scheme, h), pub)
  }

  /** The block with its digest written at its place. */
  function Signed(scheme: Scheme, h: Block, key: Bytes, hmac: Hmac): Block {
    var pos := DigestOffset(scheme, h);
    Splice(h, pos, CalculateDigest(pos, h, key, hmac))
  }

  /** Writing the key moves neither position. */
  lemma KeyKeepsPositions(scheme: Scheme, h: Block, pub: Bytes)
    requires |pub| == DH_LENGTH
    ensures var b := WithKey(scheme, h, pub);
            && DhOffset(scheme, b) == DhOffset(scheme, h)
            && DigestOffset(scheme, b) == DigestOffset(scheme, h)
            && b[..8] == h[..8]
  {
    var b := WithKey(scheme, h, pub);
    match scheme
    case Scheme1 => assert SumOfFour(b, 1532) == SumOfFour(h, 1532) && SumOfFour(b, 8) == SumOfFour(h, 8);
    case Scheme2 => assert SumOfFour(b, 768) == SumOfFour(h, 768) && SumOfFour(b, 772) == SumOfFour(h, 772);
  }

  /** Writing a digest at its place moves neither position and touches neither the key region nor the first 8 bytes. */
  lemma DigestKeepsPositions(scheme: Scheme, h: Block, d: Digest)
    ensures var b := Splice(h, DigestOffset(scheme, h), d);
            && DhOffset(scheme, b) == DhOffset(scheme, h)
            && DigestOffset(scheme, b) == DigestOffset(scheme, h)
            && b[..8] == h[..8]
            && forall k :: DhOffset(scheme, h) <= k < DhOffset(scheme, h) + DH_LENGTH ==> b[k] == h[k]
  {
    var b := Splice(h, DigestOffset(scheme, h), d);
    match scheme
    case Scheme1 => assert SumOfFour(b, 1532) == SumOfFour(h, 1532) && SumOfFour(b, 8) == SumOfFour(h, 8);
    case Scheme2 => assert SumOfFour(b, 768) == SumOfFour(h, 768) && SumOfFour(b, 772) == SumOfFour(h, 772);
  }

  /** A signed block verifies at the position a reader computes from it. */
  lemma SignedVerifies(scheme: Scheme, h: Block, key: Bytes, hmac: Hmac)
    ensures var b := Signed(scheme, h, key, hmac);
            && b[..8] == h[..8]
            && DigestOffset(scheme, b) == DigestOffset(scheme, h)
            && VerifyDigest(DigestOffset(scheme, b), b, key, hmac)
  {
    var pos := DigestOffset(scheme, h);
    var d := CalculateDigest(pos, h, key, hmac);
    DigestKeepsPositions(scheme, h, d);
    assert Message(Splice(h, pos, d), pos) == Message(h, pos);
  }

  /** Key, then digest: the reader finds both where the writer put them, under either scheme. */
  lemma SignThenVerify(scheme: Scheme, h: Block, pub: Bytes, key: Bytes, hmac: Hmac)
    requires |pub| == DH_LENGTH
    ensures var b := Signed(scheme, WithKey(scheme, h, pub), key, hmac);
            var dh := DhOffset(scheme, b);
            && b[..8] == h[..8]
            && dh == DhOffset(scheme, h)
            && b[dh..dh + DH_LENGTH] == pub
            && DigestOffset(scheme, b) == DigestOffset(scheme, h)
            && VerifyDigest(DigestOffset(scheme, b), b, key, hmac)
  {
    hide DhOffset, DigestOffset;
    var h1 := WithKey(scheme, h, pub);
    KeyKeepsPositions(scheme, h, pub);
    SignedVerifies(scheme, h1, key, hmac);
    var pos := DigestOffset(scheme, h1);
    DigestKeepsPositions(scheme, h1, CalculateDigest(pos, h1, key, hmac));
    assert Splice(h, DhOffset(scheme, h), pub) == h1;
  }

  // ----------------------------------------------------------------- sealing

  /** The functions and tables both sides share; the results hold for every choice of them. */
  datatype Suite = Suite(
    hmac: Hmac,
    fpKey: Bytes,                  // GenuineFPKey
    fmsKey: Bytes,                 // GenuineFMSKey
    xteaKeys: seq<Xtea.Key>,       // rtmpe8_keys
    blowfishKeys: seq<Bytes>,      // rtmpe9_keys
    tables: Blowfish.Tables,       // bf_pinit and bf_sinit
    int32: nat -> Quad,            // AMF_EncodeInt32
    p: nat)                        // P1024
  {
    ghost predicate Valid() {
      && |fpKey| == 62 && |fmsKey| == 68
      && p % 2 == 1 && p > 1
      && |xteaKeys| == 16
      && |blowfishKeys| == 16 && forall k :: 0 <= k < 16 ==> |blowfishKeys[k]| == Blowfish.KEYBYTES
    }
  }

  function SealOctets(s: Suite, kind: byte, id: nat, x: Words.Octets): Words.Octets
    requires s.Valid() && id < 15
  {
    if kind == 8 then Xtea.Encrypt(x, s.xteaKeys[id])
    else if kind == 9 then Blowfish.EncryptOctets(x, s.tables, s.blowfishKeys[id])
    else x
  }

  function UnsealOctets(s: Suite, kind: byte, id: nat, x: Words.Octets): Words.Octets
    requires s.Valid() && id < 15
  {
    if kind == 8 then Xtea.Decrypt(x, s.xteaKeys[id])
    else if kind == 9 then Blowfish.DecryptOctets(x, s.tables, s.blowfishKeys[id])
    else x
  }

  /** A signature sealed for handshake type `kind`: each 8-byte block under the key that `digest` selects for it. */
  function Seal(s: Suite, kind: byte, digest: Digest, x: Digest): Digest
    requires s.Valid()
  {
    SealOctets(s, kind, digest[0] % 15, x[..8]) + SealOctets(s, kind, digest[8] % 15, x[8..16])
    + SealOctets(s, kind, digest[16] % 15, x[16..24]) + SealOctets(s, kind, digest[24] % 15, x[24..])
  }

  function Unseal(s: Suite, kind: byte, digest: Digest, x: Digest): Digest
    requires s.Valid()
  {
    UnsealOctets(s, kind, digest[0] % 15, x[..8]) + UnsealOctets(s, kind, digest[8] % 15, x[8..16])
    + UnsealOctets(s, kind, digest[16] % 15, x[16..24]) + UnsealOctets(s, kind, digest[24] % 15, x[24..])
  }

  lemma UnsealSealOctets(s: Suite, kind: byte, id: nat, x: Words.Octets)
    requires s.Valid() && id < 15
    ensures UnsealOctets(s, kind, id, SealOctets(s, kind, id, x)) == x
    ensures SealOctets(s, kind, id, UnsealOctets(s, kind, id, x)) == x
  {
    hide Xtea.Encrypt, Xtea.Decrypt, Blowfish.EncryptOctets, Blowfish.DecryptOctets;
    if kind == 8 {
      Xtea.Bijection(x, s.xteaKeys[id]);
    } else if kind == 9 {
      Blowfish.Bijection(x, s.tables, s.blowfishKeys[id]);
    }
  }

  /** Sealing is a bijection on signatures for every handshake type, so comparing sealed signatures compares
      signatures. */
  lemma SealBijection(s: Suite, kind: byte, digest: Digest, x: Digest)
    requires s.Valid()
    ensures Unseal(s, kind, digest, Seal(s, kind, digest, x)) == x
    ensures Seal(s, kind, digest, Unseal(s, kind, digest, x)) == x
  {
    hide SealOctets, UnsealOctets;
    var y, z := Seal(s, kind, digest, x), Unseal(s, kind, digest, x);
    UnsealSealOctets(s, kind, digest[0] % 15, x[..8]);
    UnsealSealOctets(s, kind, digest[8] % 15, x[8..16]);
    UnsealSealOctets(s, kind, digest[16] % 15, x[16..24]);
    UnsealSealOctets(s, kind, digest[24] % 15, x[24..]);
    assert y[..8] == SealOctets(s, kind, digest[0] % 15, x[..8]);
    assert y[8..16] == SealOctets(s, kind, digest[8] % 15, x[8..16]);
    assert y[16..24] == SealOctets(s, kind, digest[16] % 15, x[16..24]);
    assert y[24..] == SealOctets(s, kind, digest[24] % 15, x[24..]);
    assert z[..8] == UnsealOctets(s, kind, digest[0] % 15, x[..8]);
    assert z[8..16] == UnsealOctets(s, kind, digest[8] % 15, x[8..16]);
    assert z[16..24] == UnsealOctets(s, kind, digest[16] % 15, x[16..24]);
    assert z[24..] == UnsealOctets(s, kind, digest[24] % 15, x[24..]);
  }

  method SealBlockInPlace(s: Suite, kind: byte, id: nat, buf: array<byte>, at: nat)
    requires s.Valid() && id < 15 && at + 8 <= buf.Length
    modifies buf
    ensures buf[..] == Splice(old(buf[..]), at, SealOctets(s, kind, id, old(buf[at..at + 8])))
  {
    hide Xtea.Encrypt, Blowfish.EncryptOctets;
    if kind == 8 {
      Xtea.Rtmpe8Sig(buf, at, buf, at, s.xteaKeys[id]);
    } else if kind == 9 {
      Blowfish.Rtmpe9Sig(buf, at, buf, at, s.tables, s.blowfishKeys[id]);
    }
  }

  /** The sealing loops of both handshakes, in place over the 32 bytes at `at`. */
  method SealInPlace(s: Suite, kind: byte, digest: Digest, buf: array<byte>, at: nat)
    requires s.Valid() && at + DIGEST_LENGTH <= buf.Length
    modifies buf
    ensures buf[..] == Splice(old(buf[..]), at, Seal(s, kind, digest, old(buf[at..at + DIGEST_LENGTH])))
  {
    hide Seal, SealOctets, Splice;
    ghost var b, x := buf[..], buf[at..at + DIGEST_LENGTH];
    ghost var sealed := Seal(s, kind, digest, x);
    SealByBlocks(s, kind, digest, x);
    SpliceNothing(b, at, sealed, x);
    var i: nat := 0;
    while i < DIGEST_LENGTH
      invariant i <= DIGEST_LENGTH && i % 8 == 0
      invariant buf[..] == Splice(b, at, sealed[..i] + x[i..])
    {
      SpliceTwice(b, at, sealed, x, i);
      assert buf[at + i..at + i + 8] == buf[..][at + i..at + i + 8];
      SealBlockInPlace(s, kind, digest[i] % 15, buf, at + i);
      i := i + 8;
    }
    assert sealed[..i] + x[i..] == sealed;
  }

  lemma SealByBlocks(s: Suite, kind: byte, digest: Digest, x: Digest)
    requires s.Valid()
    ensures forall i: nat :: i < DIGEST_LENGTH && i % 8 == 0 ==>
              Seal(s, kind, digest, x)[i..i + 8] == SealOctets(s, kind, digest[i] % 15, x[i..i + 8])
  {
    hide SealOctets;
    var y := Seal(s, kind, digest, x);
    assert x[24..] == x[24..32];
    forall i: nat | i < DIGEST_LENGTH && i % 8 == 0
      ensures y[i..i + 8] == SealOctets(s, kind, digest[i] % 15, x[i..i + 8])
    {
      if i == 0 {
      } else if i == 8 {
      } else if i == 16 {
      } else {
        assert i == 24;
      }
    }
  }

  lemma SpliceNothing(b: Bytes, at: nat, sealed: Digest, x: Digest)
    requires at + DIGEST_LENGTH <= |b| && x == b[at..at + DIGEST_LENGTH]
    ensures Splice(b, at, sealed[..0] + x[0..]) == b
  {
  }

  /** Sealing the next eight bytes extends the sealed prefix. */
  lemma SpliceTwice(b: Bytes, at: nat, sealed: Digest, x: Digest, i: nat)
    requires at + DIGEST_LENGTH <= |b| && i + 8 <= DIGEST_LENGTH
    ensures Splice(b, at, sealed[..i] + x[i..])[at + i..at + i + 8] == x[i..i + 8]
    ensures Splice(Splice(b, at, sealed[..i] + x[i..]), at + i, sealed[i..i + 8])
            == Splice(b, at, sealed[..i + 8] + x[i + 8..])
  {
    var y := sealed[..i] + x[i..];
    assert Splice(b, at, y)[at + i..at + i + 8] == Splice(b, at, y)[at..at + DIGEST_LENGTH][i..i + 8];
    SpliceInside(b, at, y, i, sealed[i..i + 8]);
    assert Splice(y, i, sealed[i..i + 8]) == sealed[..i + 8] + x[i + 8..];
  }
}
