/** The Diffie-Hellman exchange of `dh.h`, in its GnuTLS form, which spells out the powers. */
module DiffieHellman {
  import opened Arithmetic
  import opened Bytes

  const G: nat := 2
  const KEY_LENGTH: nat := 128

  // ------------------------------------------------------------ powers

  function Pow(b: nat, e: nat): nat { if e == 0 then 1 else b * Pow(b, e - 1) }

  /** `mpz_powm` */
  function PowMod(b: nat, e: nat, p: nat): (r: nat)
    requires p > 0
    ensures r < p
  {
    Pow(b, e) % p
  }

  lemma {:induction false} PowSum(b: nat, m: nat, n: nat)
    ensures Pow(b, m + n) == Pow(b, m) * Pow(b, n)
  {
    if m > 0 {
      PowSum(b, m - 1, n);
      assert b * (Pow(b, m - 1) * Pow(b, n)) == (b * Pow(b, m - 1)) * Pow(b, n);
    }
  }

  lemma {:induction false} PowPow(b: nat, m: nat, n: nat)
    ensures Pow(Pow(b, m), n) == Pow(b, m * n)
  {
    if n == 0 {
      assert m * n == 0;
    } else {
      PowPow(b, m, n - 1);
      assert m * n == m + m * (n - 1);
      PowSum(b, m, m * (n - 1));
    }
  }

  lemma {:induction false} PowOfRemainder(b: nat, e: nat, p: nat)
    requires p > 0
    ensures Pow(b % p, e) % p == Pow(b, e) % p
  {
    if e > 0 {
      PowOfRemainder(b, e - 1, p);
      RemainderOfProduct(b % p, Pow(b % p, e - 1), p);
      RemainderOfProduct(b, Pow(b, e - 1), p);
      DivisionIsUnique(b % p, 0, b % p, p);
    }
  }

  /** Each side raises the other side's public number to its own secret exponent, and both arrive at the same number. */
  lemma SharedSecretAgrees(g: nat, a: nat, b: nat, p: nat)
    requires p > 0
    ensures PowMod(PowMod(g, a, p), b, p) == PowMod(PowMod(g, b, p), a, p)
  {
    PowOfRemainder(Pow(g, a), b, p);
    PowOfRemainder(Pow(g, b), a, p);
    PowPow(g, a, b);
    PowPow(g, b, a);
    assert a * b == b * a;
  }

  // ------------------------------------------------------- validity of keys

  /** `isValidPublicKey`: 1 and p-1 are accepted; the test against `q` only logs. */
  predicate IsValidPublicKey(y: nat, p: nat) {
    !(y < 1) && !(y > p - 1)
  }

  /** The range that the messages of `isValidPublicKey` give. */
  predicate InDocumentedRange(y: nat, p: nat) { 2 <= y && y + 2 <= p }

  /** The test keeps its promise on exactly the keys other than 1 and p-1. */
  lemma DocumentedRangeExactly(y: nat, p: nat)
    requires p > 1
    ensures (IsValidPublicKey(y, p) <==> InDocumentedRange(y, p)) <==> y != 1 && y != p - 1
  {
  }

  lemma {:induction false} PowerOfOne(e: nat)
    ensures Pow(1, e) == 1
  {
    if e > 0 {
      PowerOfOne(e - 1);
    }
  }

  /** Multiplication by -1 exchanges 1 and -1. */
  lemma TimesLast(x: nat, p: nat)
    requires p > 1
    ensures x % p == 1 ==> ((p - 1) * x) % p == p - 1
    ensures x % p == p - 1 ==> ((p - 1) * x) % p == 1
  {
    RemainderOfProduct(p - 1, x, p);
    DivisionIsUnique(p - 1, 0, p - 1, p);
    assert (p - 1) * (p - 1) == (p - 2) * p + 1;
    DivisionIsUnique((p - 1) * (p - 1), p - 2, 1, p);
    assert (p - 1) * 1 == p - 1;
  }

  /** The powers of -1: they tell no more of the exponent than its last bit. */
  lemma {:induction false} PowerOfLast(e: nat, p: nat)
    requires p > 1
    ensures PowMod(p - 1, e, p) == if e % 2 == 0 then 1 else p - 1
  {
    if e == 0 {
      DivisionIsUnique(1, 0, 1, p);
    } else {
      PowerOfLast(e - 1, p);
      TimesLast(Pow(p - 1, e - 1), p);
      assert Pow(p - 1, e) == (p - 1) * Pow(p - 1, e - 1);
      hide Pow;
    }
  }

  /** `y^q mod p = 1`, which `isValidPublicKey` computes and only writes to the log. */
  predicate HasOrder(y: nat, q: nat, p: nat)
    requires p > 0
  {
    PowMod(y, q, p) == 1
  }

  /** For every prime of the documented kind, p - 1 has the wrong order, and is accepted. */
  lemma WrongOrderIsAccepted(q: nat)
    requires q % 2 == 1
    ensures var p := 2 * q + 1; IsValidPublicKey(p - 1, p) && !HasOrder(p - 1, q, p)
  {
    PowerOfLast(q, 2 * q + 1);
  }

  lemma OddDividesHalf(x: nat, p: nat)
    requires p % 2 == 1 && (2 * x) % p == 0
    ensures x % p == 0
  {
    var k := (2 * x) / p;
    assert 2 * x == p * k;
    var h := p / 2;
    assert p == 2 * h + 1 && 2 * x == 2 * (h * k) + k;
    var m := k / 2;
    assert k == 2 * m && x == p * m;
    MultipleVanishes(0, m, p);
  }

  lemma {:induction false} PowerOfTwoNotDivisible(e: nat, p: nat)
    requires p % 2 == 1 && p > 1
    ensures Pow(2, e) % p != 0
  {
    if e > 0 {
      if Pow(2, e) % p == 0 {
        OddDividesHalf(Pow(2, e - 1), p);
        PowerOfTwoNotDivisible(e - 1, p);
      }
    }
  }

  /** An honestly generated key is never rejected, whatever the exponent. */
  lemma HonestKeyIsValid(e: nat, p: nat)
    requires p % 2 == 1 && p > 1
    ensures IsValidPublicKey(PowMod(G, e, p), p)
  {
    PowerOfTwoNotDivisible(e, p);
  }

  // -------------------------------------------------- numbers as byte strings

  function Decode(s: Bytes): nat { if s == [] then 0 else 0x100 * Decode(s[..|s| - 1]) + s[|s| - 1] }

  /** The low `n` bytes of `u`, most significant first. */
  function Encode(u: nat, n: nat): (s: Bytes)
    ensures |s| == n
  {
    if n == 0 then [] else Encode(u / 0x100, n - 1) + [Low(u)]
  }

  function Zeros(n: nat): (s: Bytes)
    ensures |s| == n
  {
    seq(n, _ => 0)
  }

  lemma {:induction false} DecodeEncode(u: nat, n: nat)
    requires u < Pow(0x100, n)
    ensures Decode(Encode(u, n)) == u
  {
    if n > 0 {
      DecodeEncode(u / 0x100, n - 1);
      assert Encode(u, n)[..n - 1] == Encode(u / 0x100, n - 1);
    }
  }

  /** Byte `i` of the encoding is the digit of weight 256^(n - 1 - i). */
  lemma {:induction false} EncodeDigit(u: nat, n: nat, i: nat)
    requires i < n
    ensures Pow(256, n - 1 - i) > 0 && Encode(u, n)[i] == Low(u / Pow(256, n - 1 - i))
    decreases n
  {
    PowMonotone(256, 0, n - 1 - i);
    if i == n - 1 {
      assert Pow(256, 0) == 1;
    } else {
      PowMonotone(256, 0, n - 2 - i);
      EncodeDigit(u / 256, n - 1, i);
      assert Pow(256, n - 1 - i) == 256 * Pow(256, n - 2 - i);
      QuotientTwice(u, 256, Pow(256, n - 2 - i));
    }
  }

  /** And every byte string is the encoding of its number. */
  lemma {:induction false} EncodeDecode(s: Bytes)
    ensures Encode(Decode(s), |s|) == s
  {
    if s != [] {
      var init := s[..|s| - 1];
      EncodeDecode(init);
      assert (0x100 * Decode(init) + s[|s| - 1]) / 0x100 == Decode(init);
      assert s == init + [s[|s| - 1]];
    }
  }

  lemma {:induction false} LeadingZeros(u: nat, m: nat, n: nat)
    requires m <= n && u < Pow(0x100, m)
    ensures Encode(u, n) == Zeros(n - m) + Encode(u, m)
  {
    if n > 0 {
      if m == 0 {
        LeadingZeros(u / 0x100, 0, n - 1);
      } else {
        LeadingZeros(u / 0x100, m - 1, n - 1);
      }
    }
  }

  /** `mpz_sizeinbase(u, 2)`: the number of bits, at least 1. */
  function BitLength(u: nat): nat { if u < 2 then 1 else 1 + BitLength(u / 2) }

  /** `MP_bytes` */
  function ByteLength(u: nat): (n: nat)
    ensures n >= 1
  {
    (BitLength(u) + 7) / 8
  }

  lemma {:induction false} BitLengthBounds(u: nat)
    ensures u < Pow(2, BitLength(u))
    ensures u >= 1 ==> Pow(2, BitLength(u) - 1) <= u
  {
    if u >= 2 {
      BitLengthBounds(u / 2);
    } else {
      assert Pow(2, 0) == 1 && Pow(2, 1) == 2;
    }
  }

  lemma {:induction false} PowMonotone(b: nat, m: nat, n: nat)
    requires b >= 1 && m <= n
    ensures 1 <= Pow(b, m) <= Pow(b, n)
  {
    if m < n {
      PowMonotone(b, m, n - 1);
      assert 1 * Pow(b, n - 1) <= b * Pow(b, n - 1);
    } else if m > 0 {
      PowMonotone(b, m - 1, n - 1);
      assert 1 * Pow(b, n - 1) <= b * Pow(b, n - 1);
    }
  }

  lemma {:induction false} PowersOf256(n: nat)
    ensures Pow(0x100, n) == Pow(2, 8 * n)
  {
    if n > 0 {
      PowersOf256(n - 1);
      PowSum(2, 8, 8 * (n - 1));
      assert Pow(2, 4) == 16 && Pow(2, 8) == 0x100;
    }
  }

  /** `ByteLength` is the least number of bytes that hold the number; it is 1 for zero. */
  lemma ByteLengthExact(u: nat, n: nat)
    requires n >= 1
    ensures ByteLength(u) <= n <==> u < Pow(0x100, n)
  {
    BitLengthBounds(u);
    PowersOf256(n);
    if ByteLength(u) <= n {
      PowMonotone(2, BitLength(u), 8 * n);
    } else {
      PowMonotone(2, 8 * n, BitLength(u) - 1);
    }
  }

  // ------------------------------------------------------------- the exchange

  /** The generator. */
  lemma GeneratorIsTwo(e: nat, p: nat)
    requires GoodPrime(p)
    ensures Decode(PublicKey(e, p)) == Pow(2, e) % p
  {
    hide Pow, Encode, Decode;
    PublicKeyRoundTrip(e, p);
  }

  /** What is needed of the group's prime, which stays symbolic: odd, at least two bytes long, at most 128. */
  ghost predicate GoodPrime(p: nat) {
    p % 2 == 1 && p >= 0x100 && FitsKey(p)
  }

  /** A number that a buffer for a key can hold. */
  ghost predicate FitsKey(p: nat) { p < Pow(0x100, KEY_LENGTH) }

  /** The number of random *bits* `MDH_generate_key` draws: it passes a number of bytes to `mpz_urandomb`. */
  function ExponentBits(p: nat): nat { ByteLength(p) - 1 }

  /** A draw of `mpz_urandomb` from arbitrary randomness. */
  function Exponent(draw: nat, p: nat): (e: nat)
    ensures e < Pow(2, ExponentBits(p))
  {
    PowMonotone(2, 0, ExponentBits(p));
    draw % Pow(2, ExponentBits(p))
  }

  /** With a prime of 128 bytes, the secret exponent has at most 127 bits, and every number of 127 bits can be drawn. */
  lemma ExponentsOf1024BitPrime(p: nat)
    requires Pow(0x100, KEY_LENGTH - 1) <= p && FitsKey(p)
    ensures ExponentBits(p) == 127
    ensures forall draw :: Exponent(draw, p) < Pow(2, ExponentBits(p))
    ensures forall e: nat :: e < Pow(2, ExponentBits(p)) ==> Exponent(e, p) == e
  {
    hide Pow;
    ByteLengthExact(p, KEY_LENGTH);
    ByteLengthExact(p, KEY_LENGTH - 1);
    forall e: nat | e < Pow(2, ExponentBits(p)) ensures Exponent(e, p) == e {
      DivisionIsUnique(e, 0, e, Pow(2, ExponentBits(p)));
    }
  }

  function PublicKey(e: nat, p: nat): Bytes
    requires p > 0
  {
    Encode(PowMod(G, e, p), KEY_LENGTH)
  }

  /** The 128-byte secret that the owner of exponent `e` derives from the peer's bytes; none if they are not a valid
      key. */
  function SharedSecret(e: nat, peer: Bytes, p: nat): Option<Bytes>
    requires p > 0
  {
    if IsValidPublicKey(Decode(peer), p) then Some(Encode(PowMod(Decode(peer), e, p), KEY_LENGTH)) else None
  }

  /** A peer whose key decodes to 1 shares the secret 1 with everybody. */
  lemma KeyOneGivesOne(e: nat, peer: Bytes, p: nat)
    requires p > 1 && Decode(peer) == 1
    ensures SharedSecret(e, peer, p) == Some(Encode(1, KEY_LENGTH))
  {
    hide Encode, Decode;
    PowerOfOne(e);
    DivisionIsUnique(1, 0, 1, p);
  }

  /** A peer whose key decodes to p - 1 leaves two secrets; which one depends on the last bit of the exponent. */
  lemma LastKeyGivesLastBit(e: nat, peer: Bytes, p: nat)
    requires p > 1 && Decode(peer) == p - 1
    ensures SharedSecret(e, peer, p) == Some(Encode(if e % 2 == 0 then 1 else p - 1, KEY_LENGTH))
  {
    hide Encode, Decode, Pow;
    PowerOfLast(e, p);
  }

  /** The written form of an honest key decodes to the key, and the peer accepts it. */
  lemma PublicKeyRoundTrip(e: nat, p: nat)
    requires GoodPrime(p)
    ensures Decode(PublicKey(e, p)) == PowMod(G, e, p)
    ensures IsValidPublicKey(Decode(PublicKey(e, p)), p)
  {
    DecodeEncode(PowMod(G, e, p), KEY_LENGTH);
    HonestKeyIsValid(e, p);
  }

  /** Two honest sides derive the same secret, for every pair of exponents. */
  lemma ExchangeAgrees(a: nat, b: nat, p: nat)
    requires GoodPrime(p)
    ensures SharedSecret(a, PublicKey(b, p), p).Some?
    ensures SharedSecret(a, PublicKey(b, p), p) == SharedSecret(b, PublicKey(a, p), p)
  {
    hide Pow, Encode, Decode, PowMod;
    PublicKeyRoundTrip(a, p);
    PublicKeyRoundTrip(b, p);
    SharedSecretAgrees(G, a, b, p);
  }

  lemma ZerosPrefix(m: nat, n: nat)
    requires m <= n
    ensures Zeros(n)[..m] == Zeros(m)
  {
  }

  /** Zeros over the whole region and then a number over its end leave the padded number. */
  lemma PaddedStore(b: Bytes, at: nat, number: Bytes, n: nat)
    requires |number| <= n && at + n <= |b|
    ensures Splice(Splice(b, at, Zeros(n)), at + (n - |number|), number)
         == Splice(b, at, Zeros(n - |number|) + number)
  {
    ZerosPrefix(n - |number|, n);
    hide Splice, Zeros;
    SpliceOverEnd(b, at, Zeros(n), number);
  }

  /** `MDH` */
  class Mdh {
    const p: nat
    const g: nat
    var pubKey: Option<nat>
    var privKey: Option<nat>

    ghost predicate Valid() {
      g == G && p > 0
    }

    ghost predicate HasKey(e: nat)
      reads this
    {
      Valid() && privKey == Some(e) && pubKey == Some(PowMod(G, e, p))
    }

    /** `DHInit` */
    constructor (prime: nat)
      requires prime > 0
      ensures Valid() && p == prime && pubKey == None && privKey == None
    {
      p, g := prime, G;
      pubKey, privKey := None, None;
    }

    /** `MDH_generate_key` */
    method GenerateKeyPair(draw: nat) returns (ok: bool)
      requires Valid()
      modifies this
      ensures ok <==> 0 < ExponentBits(p) <= 18000
      ensures if ok then HasKey(Exponent(draw, p)) else pubKey == old(pubKey) && privKey == old(privKey)
    {
      var numBytes := ByteLength(p) - 1;
      if numBytes <= 0 || numBytes > 18000 {
        return false;
      }
      var e := Exponent(draw, p);
      privKey := Some(e);
      pubKey := Some(PowMod(g, e, p));
      return true;
    }

    /** `DHGenerateKey`: the retry loop keeps its first key. `rnd(k)` is the randomness behind the k-th try. */
    method GenerateKey(rnd: nat -> nat) returns (ok: bool)
      requires Valid() && p % 2 == 1 && p > 1
      modifies this
      ensures ok <==> 0 < ExponentBits(p) <= 18000
      ensures ok ==> HasKey(Exponent(rnd(0), p))
    {
      hide PowMod, Exponent;
      var res, k: nat := false, 0;
      while !res
        invariant res ==> 0 < ExponentBits(p) <= 18000 && HasKey(Exponent(rnd(0), p))
        invariant !res ==> k == 0
        decreases if res then 0 else 1
      {
        var generated := GenerateKeyPair(rnd(k));
        if !generated {
          return false;
        }
        res := IsValidPublicKey(pubKey.value, p);
        if !res {
          pubKey, privKey := None, None;
        }
        HonestKeyIsValid(Exponent(rnd(k), p), p);
        k := k + 1;
      }
      return true;
    }

    /** `DHGetPublicKey`: the number, left-padded with zeros, written into a 128-byte region of a buffer. */
    method GetPublicKey(buf: array<byte>, at: nat) returns (ok: bool)
      requires at + KEY_LENGTH <= buf.Length
      modifies buf
      ensures ok <==> pubKey.Some? && pubKey.value < Pow(0x100, KEY_LENGTH)
      ensures buf[..] == if ok then Splice(old(buf[..]), at, Encode(pubKey.value, KEY_LENGTH)) else old(buf[..])
    {
      hide Pow, Encode, Splice;
      if pubKey.None? {
        return false;
      }
      var len := ByteLength(pubKey.value);
      ByteLengthExact(pubKey.value, KEY_LENGTH);
      if len <= 0 || len > KEY_LENGTH {
        return false;
      }
      ByteLengthExact(pubKey.value, len);
      LeadingZeros(pubKey.value, len, KEY_LENGTH);
      PaddedStore(buf[..], at, Encode(pubKey.value, len), KEY_LENGTH);
      CopyInto(buf, at, Zeros(KEY_LENGTH));
      CopyInto(buf, at + (KEY_LENGTH - len), Encode(pubKey.value, len));
      return true;
    }

    /** `MDH_compute_key`: the length of the secret, or -1. */
    method ComputeKey(pub: nat, secret: array<byte>) returns (res: int)
      requires Valid() && privKey.Some? && secret.Length == KEY_LENGTH && FitsKey(p)
      modifies secret
      ensures res == KEY_LENGTH && secret[..] == Encode(PowMod(pub, privKey.value, p), KEY_LENGTH)
    {
      hide Encode, Pow;
      var numBytes := ByteLength(p);
      ByteLengthExact(p, KEY_LENGTH);
      if numBytes <= 0 || numBytes > 18000 {
        assert false;
        return -1;
      }
      CopyInto(secret, 0, Encode(PowMod(pub, privKey.value, p), KEY_LENGTH));
      return KEY_LENGTH;
    }

    /** `DHComputeSharedSecretKey`: the length of the secret, or -1. The prime must fit, or the secret may not. */
    method ComputeSharedSecret(pubkey: Bytes, secret: array<byte>) returns (res: int)
      requires Valid() && privKey.Some? && secret.Length == KEY_LENGTH && FitsKey(p)
      modifies secret
      ensures var s := SharedSecret(privKey.value, pubkey, p);
              if s.Some? then res == KEY_LENGTH && secret[..] == s.value else res == -1 && secret[..] == old(secret[..])
    {
      var y := Decode(pubkey);
      if !IsValidPublicKey(y, p) {
        return -1;
      }
      res := ComputeKey(y, secret);
    }
  }
}
