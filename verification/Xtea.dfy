/** The XTEA form of the RTMPE signature (handshake type 8). */
module Xtea {
  import opened Arithmetic
  import opened Bytes
  import opened Words

  const DELTA: word := 0x9E3779B9

  type Key = k: seq<word> | |k| == 4 witness [0, 0, 0, 0]

  /** The number of rounds, taken from the key so that the verifier does not unroll them. */
  function NumRounds(k: Key): (n: nat)
    ensures n == 32
  {
    8 * |k|
  }

  /** The running value of `sum` before round `i`. */
  function Sum(i: nat): word { if i == 0 then 0 else Add(Sum(i - 1), DELTA) }

  /** `((v << 4) ^ (v >> 5)) + v` */
  function Mix(v: word): word { Add(Xor((v * 16) % 0x1_0000_0000, v / 32), v) }

  /** What a round adds to the left half: the key word is chosen by the low two bits of `sum`. */
  function LeftTerm(k: Key, sum: word, right: word): word { Xor(Mix(right), Add(sum, k[sum % 4])) }

  /** What a round adds to the right half: the key word is chosen by bits 11 and 12 of `sum`. */
  function RightTerm(k: Key, sum: word, left: word): word { Xor(Mix(left), Add(sum, k[(sum / 2048) % 4])) }

  function Round(b: Block<word>, k: Key, sum: word): Block<word> {
    var left := Add(b.left, LeftTerm(k, sum, b.right));
    Block(left, Add(b.right, RightTerm(k, Add(sum, DELTA), left)))
  }

  /** The block after the first `n` rounds. */
  function Rounds(b: Block<word>, k: Key, n: nat): Block<word> {
    if n == 0 then b else Round(Rounds(b, k, n - 1), k, Sum(n - 1))
  }

  function Encrypt(s: Octets, k: Key): Octets { Store(Rounds(Load(s), k, NumRounds(k))) }

  // ------------------------------------- the inverse the repository does not contain

  function Unround(b: Block<word>, k: Key, sum: word): Block<word> {
    var right := Sub(b.right, RightTerm(k, Add(sum, DELTA), b.left));
    Block(Sub(b.left, LeftTerm(k, sum, right)), right)
  }

  /** Rounds `n-1, ..., 0` undone: the round sums run backwards. */
  function Unrounds(b: Block<word>, k: Key, n: nat): Block<word>
    decreases n
  {
    if n == 0 then b else Unrounds(Unround(b, k, Sum(n - 1)), k, n - 1)
  }

  function Decrypt(s: Octets, k: Key): Octets { Store(Unrounds(Load(s), k, NumRounds(k))) }

  lemma UnroundRound(b: Block<word>, k: Key, sum: word)
    ensures Unround(Round(b, k, sum), k, sum) == b
    ensures Round(Unround(b, k, sum), k, sum) == b
  {
    hide Add, Sub, LeftTerm, RightTerm;
    var c, d := Round(b, k, sum), Unround(b, k, sum);
    SubAdd(b.left, LeftTerm(k, sum, b.right));
    SubAdd(b.right, RightTerm(k, Add(sum, DELTA), c.left));
    SubAdd(b.right, RightTerm(k, Add(sum, DELTA), b.left));
    SubAdd(b.left, LeftTerm(k, sum, d.right));
  }

  lemma {:induction false} UnroundsRounds(b: Block<word>, k: Key, n: nat)
    ensures Unrounds(Rounds(b, k, n), k, n) == b
  {
    hide Round, Unround;
    if n > 0 {
      UnroundRound(Rounds(b, k, n - 1), k, Sum(n - 1));
      UnroundsRounds(b, k, n - 1);
    }
  }

  lemma {:induction false} RoundsUnrounds(b: Block<word>, k: Key, n: nat)
    ensures Rounds(Unrounds(b, k, n), k, n) == b
    decreases n
  {
    hide Round, Unround;
    if n > 0 {
      UnroundRound(b, k, Sum(n - 1));
      RoundsUnrounds(Unround(b, k, Sum(n - 1)), k, n - 1);
    }
  }

  /** `rtmpe8_sig` is a bijection on 8-byte blocks, whatever the key. */
  lemma Bijection(s: Octets, k: Key)
    ensures Decrypt(Encrypt(s, k), k) == s
    ensures Encrypt(Decrypt(s, k), k) == s
  {
    hide Rounds, Unrounds;
    StoreLoad(s);
    UnroundsRounds(Load(s), k, NumRounds(k));
    RoundsUnrounds(Load(s), k, NumRounds(k));
  }

  // ------------------------------------------------------- what the cipher computes

  /** `DELTA` is the integer part of (sqrt(5) - 1) * 2^31. */
  lemma DeltaIsGoldenRatio()
    ensures (DELTA + 0x8000_0000) * (DELTA + 0x8000_0000) <= 5 * 0x4000_0000_0000_0000
    ensures 5 * 0x4000_0000_0000_0000 < (DELTA + 0x8000_0001) * (DELTA + 0x8000_0001)
  {
  }

  /** `Mix(v) - v` is `v << 4` exclusive or `v >> 5`. */
  lemma MixOpened(v: word)
    ensures Xor(Sub(Mix(v), v), v / 32) == (16 * v) % 0x1_0000_0000
  {
    var left, right := (v * 16) % 0x1_0000_0000, v / 32;
    SubAdd(Xor(left, right), v);
    XorTwice(left, right);
  }

  /** Bit by bit: bit `i` of it says whether the bits `i - 4` and `i + 5` of `v` differ. */
  lemma MixBits(v: word, i: nat)
    requires i < 32
    ensures Bit(Sub(Mix(v), v), i) == if (if i < 4 then 0 else Bit(v, i - 4)) == Bit(v, i + 5) then 0 else 1
  {
    hide Bit;
    var left, right := (v * 16) % 0x1_0000_0000, v / 32;
    SubAdd(Xor(left, right), v);
    XorBit(left, right, i);
    Power2Values();
    assert Power2(4) == 16 && Power2(5) == 32;
    BitOfTruncated(v * 16, 32, i);
    BitOfShiftLeft(v, 4, i);
    BitOfShiftRight(v, 5, i);
  }

  /** What follows the half-words `2 * i` and `2 * i + 1` of a computation. All constants of the cipher are written
      out. */
  predicate Follows(h: seq<word>, k: Key, i: nat)
    requires 2 * i + 3 < |h|
  {
    var sum, next := (i * 0x9E3779B9) % 0x1_0000_0000, ((i + 1) * 0x9E3779B9) % 0x1_0000_0000;
    var a: int, b: int, c: int, d: int := h[2 * i], h[2 * i + 1], h[2 * i + 2], h[2 * i + 3];
    var forC := Add(Xor((b * 16) % 0x1_0000_0000, b / 32), b);
    var forD := Add(Xor((c * 16) % 0x1_0000_0000, c / 32), c);
    && c == Add(a, Xor(forC, Add(sum, k[2 * Bit(sum, 1) + Bit(sum, 0)])))
    && d == Add(b, Xor(forD, Add(next, k[2 * Bit(next, 12) + Bit(next, 11)])))
  }

  lemma {:induction false} SumIsMultiple(i: nat)
    ensures Sum(i) == (i * 0x9E3779B9) % 0x1_0000_0000
  {
    if i > 0 {
      SumIsMultiple(i - 1);
      AddedRemainder((i - 1) * 0x9E3779B9, 0x9E3779B9);
    }
  }

  lemma AddedRemainder(x: nat, d: nat)
    ensures (x % 0x1_0000_0000 + d) % 0x1_0000_0000 == (x + d) % 0x1_0000_0000
  {
  }

  lemma TwoBits(w: nat, i: nat)
    ensures (w / Power2(i)) % 4 == 2 * Bit(w, i + 1) + Bit(w, i)
  {
    HalfOfQuotient(w, Power2(i));
    LastTwoBits(w / Power2(i));
  }

  lemma LastTwoBits(v: nat)
    ensures v % 4 == 2 * ((v / 2) % 2) + v % 2
  {
  }

  lemma HalfOfQuotient(w: nat, p: nat)
    requires p > 0
    ensures w / (2 * p) == (w / p) / 2
  {
    var v, r := w / p, w % p;
    assert w == v * p + r;
    assert v == 2 * (v / 2) + v % 2;
    assert v * p == (v / 2) * (2 * p) + (v % 2) * p;
    assert (v % 2) * p + r < 2 * p;
    DivisionIsUnique(w, v / 2, (v % 2) * p + r, 2 * p);
  }

  /** The cipher is the recurrence over 66 half-words that `Follows` writes out, from the two halves of the block,
      loaded with the least significant byte first. */
  lemma EncryptIsRecurrence(s: Octets, k: Key) returns (h: seq<word>)
    ensures |h| == 66 && (forall i: nat :: i < 32 ==> Follows(h, k, i))
    ensures h[0] == LoadWord(s[0], s[1], s[2], s[3]) && h[1] == LoadWord(s[4], s[5], s[6], s[7])
    ensures Encrypt(s, k) == StoreWord(h[64]) + StoreWord(h[65])
  {
    hide Follows, Rounds;
    var b := Load(s);
    h := HalfWords(b, k, 66);
    forall i: nat | i < 32 ensures Follows(h, k, i) {
      RoundFollows(b, k, i, h);
    }
    assert Rounds(b, k, 0) == b by {
      NoRounds(b, k);
    }
  }

  lemma NoRounds(b: Block<word>, k: Key)
    ensures Rounds(b, k, 0) == b
  {
  }

  function HalfWords(b: Block<word>, k: Key, n: nat): (h: seq<word>)
    ensures |h| == n
  {
    seq(n, i requires 0 <= i < n => if i % 2 == 0 then Rounds(b, k, i / 2).left else Rounds(b, k, i / 2).right)
  }

  lemma LeftTermOpened(k: Key, sum: word, b: word)
    ensures 2 * Bit(sum, 1) + Bit(sum, 0) < 4
    ensures LeftTerm(k, sum, b)
         == Xor(Add(Xor((b * 16) % 0x1_0000_0000, b / 32), b), Add(sum, k[2 * Bit(sum, 1) + Bit(sum, 0)]))
  {
    hide Xor, Add;
    TwoBits(sum, 0);
    assert Power2(0) == 1;
  }

  lemma RightTermOpened(k: Key, sum: word, c: word)
    ensures 2 * Bit(sum, 12) + Bit(sum, 11) < 4
    ensures RightTerm(k, sum, c)
         == Xor(Add(Xor((c * 16) % 0x1_0000_0000, c / 32), c), Add(sum, k[2 * Bit(sum, 12) + Bit(sum, 11)]))
  {
    hide Xor, Add;
    TwoBits(sum, 11);
    assert Power2(4) == 16 && Power2(11) == 2048;
  }

  lemma RoundFollows(b: Block<word>, k: Key, i: nat, h: seq<word>)
    requires |h| > 2 * i + 3 && h == HalfWords(b, k, |h|)
    ensures Follows(h, k, i)
  {
    hide Xor, Add, Bit, Sum, Power2, LeftTerm, RightTerm;
    SumIsMultiple(i);
    SumIsMultiple(i + 1);
    NextSum(i);
    var before, after := Rounds(b, k, i), Rounds(b, k, i + 1);
    assert after == Round(before, k, Sum(i));
    assert h[2 * i] == before.left && h[2 * i + 1] == before.right;
    assert h[2 * i + 2] == after.left && h[2 * i + 3] == after.right;
    LeftTermOpened(k, Sum(i), before.right);
    RightTermOpened(k, Sum(i + 1), after.left);
  }

  lemma NextSum(i: nat)
    ensures Sum(i + 1) == Add(Sum(i), DELTA)
  {
  }

  /** `rtmpe8_sig`; `input` and `output` may be the same buffer, as they are in both handshakes. */
  method Rtmpe8Sig(input: array<byte>, inAt: nat, output: array<byte>, outAt: nat, k: Key)
    requires inAt + 8 <= input.Length && outAt + 8 <= output.Length
    modifies output
    ensures output[..] == Splice(old(output[..]), outAt, Encrypt(old(input[inAt..inAt + 8]), k))
  {
    hide LeftTerm, RightTerm, Add;
    var v0 := LoadWord(input[inAt], input[inAt + 1], input[inAt + 2], input[inAt + 3]);
    var v1 := LoadWord(input[inAt + 4], input[inAt + 5], input[inAt + 6], input[inAt + 7]);
    ghost var b := Load(input[inAt..inAt + 8]);
    var sum: word := 0;
    var numRounds := NumRounds(k);
    for i := 0 to numRounds
      invariant sum == Sum(i)
      invariant Block(v0, v1) == Rounds(b, k, i)
    {
      v0 := Add(v0, LeftTerm(k, sum, v1));
      sum := Add(sum, DELTA);
      v1 := Add(v1, RightTerm(k, sum, v0));
    }
    CopyInto(output, outAt, Store(Block(v0, v1)));
  }
}
