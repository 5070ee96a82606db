/** 32-bit words, exclusive or, and the little-endian byte form of 8-byte cipher blocks. */
module Words {
  import opened Arithmetic
  import opened Bytes

  type word = n: int | 0 <= n < 0x1_0000_0000

  /** A cipher block: two halves. */
  datatype Block<W> = Block(left: W, right: W)

  type Octets = s: Bytes | |s| == 8 witness [0, 0, 0, 0, 0, 0, 0, 0]

  /** uint32_t addition and subtraction: modulo 2^32. */
  function Add(a: word, b: word): word { (a + b) % 0x1_0000_0000 }

  function Sub(a: word, b: word): word { (a - b) % 0x1_0000_0000 }

  lemma SubAdd(a: word, x: word)
    ensures Sub(Add(a, x), x) == a && Add(Sub(a, x), x) == a
  {
  }

  // ------------------------------------------------------------- exclusive or

  /** Bitwise exclusive or, bit by bit from the least significant end. */
  function XorBits(a: nat, b: nat): nat {
    if a == 0 && b == 0 then 0 else (if a % 2 == b % 2 then 0 else 1) + 2 * XorBits(a / 2, b / 2)
  }

  lemma XorParts(a: nat, b: nat)
    ensures XorBits(a, b) % 2 == if a % 2 == b % 2 then 0 else 1
    ensures XorBits(a, b) / 2 == XorBits(a / 2, b / 2)
  {
    var t := XorBits(a / 2, b / 2);
    assert (1 + 2 * t) / 2 == t && (1 + 2 * t) % 2 == 1;
  }

  lemma SameHalves(a: nat, b: nat)
    requires a / 2 == b / 2 && a % 2 == b % 2
    ensures a == b
  {
  }

  lemma {:induction false} XorTwice(a: nat, b: nat)
    ensures XorBits(XorBits(a, b), b) == a
  {
    if a != 0 || b != 0 {
      XorTwice(a / 2, b / 2);
      XorParts(a, b);
      XorParts(XorBits(a, b), b);
      SameHalves(XorBits(XorBits(a, b), b), a);
    }
  }

  lemma {:induction false} XorSwap(a: nat, b: nat, c: nat)
    ensures XorBits(XorBits(a, b), c) == XorBits(XorBits(a, c), b)
    decreases a + b + c
  {
    if a != 0 || b != 0 || c != 0 {
      XorSwap(a / 2, b / 2, c / 2);
      XorParts(a, b);
      XorParts(a, c);
      XorParts(XorBits(a, b), c);
      XorParts(XorBits(a, c), b);
      SameHalves(XorBits(XorBits(a, b), c), XorBits(XorBits(a, c), b));
    }
  }

  function Power2(n: nat): (r: nat)
    ensures r > 0
  {
    if n == 0 then 1 else 2 * Power2(n - 1)
  }

  lemma {:induction false} XorBound(a: nat, b: nat, n: nat)
    requires a < Power2(n) && b < Power2(n)
    ensures XorBits(a, b) < Power2(n)
  {
    if n > 0 && (a != 0 || b != 0) {
      XorBound(a / 2, b / 2, n - 1);
    }
  }

  lemma Power2Values()
    ensures Power2(8) == 256
    ensures Power2(32) == 0x1_0000_0000
  {
    assert Power2(4) == 16;
    assert Power2(12) == 4096;
    assert Power2(16) == 65536;
    assert Power2(20) == 0x10_0000;
    assert Power2(24) == 0x100_0000;
    assert Power2(28) == 0x1000_0000;
  }

  function Xor(a: word, b: word): word {
    Power2Values();
    XorBound(a, b, 32);
    XorBits(a, b)
  }

  function XorByte(a: byte, b: byte): byte {
    Power2Values();
    XorBound(a, b, 8);
    XorBits(a, b)
  }

  // ------------------------------------------------------------------- bits

  /** Bit `i`, counted from the least significant end. */
  function Bit(w: nat, i: nat): nat { ShiftedRight(w, i) % 2 }

  function ShiftedRight(w: nat, n: nat): nat {
    QuotientSign(w, Power2(n));
    w / Power2(n)
  }

  lemma QuotientSign(w: nat, p: nat)
    requires p > 0
    ensures w / p >= 0
  {
  }

  lemma HalfFirst(w: nat, p: nat)
    requires p > 0
    ensures w / (2 * p) == (w / 2) / p && w % (2 * p) == 2 * ((w / 2) % p) + w % 2
  {
    var half := w / 2;
    var q, r := half / p, half % p;
    assert half == q * p + r;
    assert q * (2 * p) == 2 * (q * p);
    DivisionIsUnique(w, q, 2 * r + w % 2, 2 * p);
  }

  lemma NextBit(w: nat, i: nat)
    ensures Bit(w, i + 1) == Bit(w / 2, i) && Bit(w, 0) == w % 2
  {
    HalfFirst(w, Power2(i));
  }

  /** A bit of the exclusive or is set exactly if the two bits differ. */
  lemma {:induction false} XorBit(a: nat, b: nat, i: nat)
    ensures Bit(XorBits(a, b), i) == if Bit(a, i) == Bit(b, i) then 0 else 1
    decreases i
  {
    hide Bit;
    XorParts(a, b);
    if i == 0 {
      NextBit(a, 0);
      NextBit(b, 0);
      NextBit(XorBits(a, b), 0);
    } else {
      XorBit(a / 2, b / 2, i - 1);
      NextBit(a, i - 1);
      NextBit(b, i - 1);
      NextBit(XorBits(a, b), i - 1);
    }
  }

  /** `w << n` */
  lemma {:induction false} BitOfShiftLeft(w: nat, n: nat, i: nat)
    ensures Bit(w * Power2(n), i) == if i < n then 0 else Bit(w, i - n)
    decreases n
  {
    hide Bit;
    if n > 0 {
      var v := w * Power2(n - 1);
      assert w * Power2(n) == 2 * v;
      if i == 0 {
        NextBit(2 * v, 0);
      } else {
        NextBit(2 * v, i - 1);
        BitOfShiftLeft(w, n - 1, i - 1);
      }
    } else {
      assert w * Power2(0) == w;
    }
  }

  /** `w >> n` */
  lemma {:induction false} BitOfShiftRight(w: nat, n: nat, i: nat)
    ensures Bit(ShiftedRight(w, n), i) == Bit(w, i + n)
    decreases n
  {
    hide Bit;
    if n > 0 {
      HalfFirst(w, Power2(n - 1));
      BitOfShiftRight(w / 2, n - 1, i);
      NextBit(w, i + n - 1);
    }
  }

  /** The truncation to `n` bits. */
  lemma {:induction false} BitOfTruncated(w: nat, n: nat, i: nat)
    requires i < n
    ensures Bit(w % Power2(n), i) == Bit(w, i)
    decreases n
  {
    hide Bit;
    var p, t := Power2(n - 1), w % Power2(n);
    HalfFirst(w, p);
    assert t == 2 * ((w / 2) % p) + w % 2 && t / 2 == (w / 2) % p && t % 2 == w % 2;
    if i == 0 {
      NextBit(t, 0);
      NextBit(w, 0);
    } else {
      BitOfTruncated(w / 2, n - 1, i - 1);
      NextBit(t, i - 1);
      NextBit(w, i - 1);
    }
  }

  // ------------------------------------------------------------ byte order

  /** Four bytes, least significant first, as one word. */
  function LoadWord(b0: byte, b1: byte, b2: byte, b3: byte): word {
    b0 + 0x100 * (b1 + 0x100 * (b2 + 0x100 * b3))
  }

  function StoreWord(w: word): (s: Bytes)
    ensures |s| == 4
    ensures LoadWord(s[0], s[1], s[2], s[3]) == w
  {
    var w1 := w / 0x100;
    var w2 := w1 / 0x100;
    [Low(w), Low(w1), Low(w2), Low(w2 / 0x100)]
  }

  /** Byte `i` of the stored form is worth 256^i. */
  lemma LittleEndian(b0: byte, b1: byte, b2: byte, b3: byte)
    ensures LoadWord(b0, b1, b2, b3) == b0 + 256 * b1 + 65536 * b2 + 16777216 * b3
  {
  }

  lemma StoreWordLoad(b0: byte, b1: byte, b2: byte, b3: byte)
    ensures StoreWord(LoadWord(b0, b1, b2, b3)) == [b0, b1, b2, b3]
  {
    var w2 := b2 + 0x100 * b3;
    var w1 := b1 + 0x100 * w2;
    var w := b0 + 0x100 * w1;
    assert w / 0x100 == w1 && w1 / 0x100 == w2 && w2 / 0x100 == b3;
    assert w % 0x100 == b0 && w1 % 0x100 == b1 && w2 % 0x100 == b2;
  }

  function Load(s: Octets): Block<word> {
    Block(LoadWord(s[0], s[1], s[2], s[3]), LoadWord(s[4], s[5], s[6], s[7]))
  }

  function Store(b: Block<word>): (s: Octets)
    ensures Load(s) == b
  {
    StoreWord(b.left) + StoreWord(b.right)
  }

  /** The left half comes first. */
  lemma HalvesOf(s: Octets)
    ensures Load(s) == Block(LoadWord(s[0], s[1], s[2], s[3]), LoadWord(s[4], s[5], s[6], s[7]))
  {
  }

  lemma StoreLoad(s: Octets)
    ensures Store(Load(s)) == s
  {
    StoreWordLoad(s[0], s[1], s[2], s[3]);
    StoreWordLoad(s[4], s[5], s[6], s[7]);
  }
}
