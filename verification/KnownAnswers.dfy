/** The ciphers at concrete blocks. Bit vectors only occur here, where their constants are cheap to evaluate. */
module KnownAnswers {
  import opened Arithmetic
  import opened Bytes
  import opened Words
  import Xtea

  function AsByte(x: bv8): byte { x as int }

  /** A 32-bit constant as a word. */
  function ToWord(x: bv32): word {
    (x & 0xFF) as bv8 as int + 0x100 * (((x >> 8) & 0xFF) as bv8 as int)
    + 0x1_0000 * (((x >> 16) & 0xFF) as bv8 as int) + 0x100_0000 * ((x >> 24) as bv8 as int)
  }

  // ---------------------------------------------- exclusive or, byte by byte

  lemma HalfOfBits(x: bv8)
    ensures AsByte(x >> 1) == AsByte(x) / 2
  {
  }

  lemma LastOfBits(x: bv8)
    ensures AsByte(x) % 2 == if x & 1 == 1 then 1 else 0
  {
  }

  lemma XorOfBits(x: bv8, y: bv8)
    ensures (x ^ y) >> 1 == (x >> 1) ^ (y >> 1)
    ensures (x ^ y) & 1 == 1 <==> (x & 1 == 1) != (y & 1 == 1)
  {
  }

  lemma NoBits(x: bv8)
    ensures AsByte(x) == 0 <==> x == 0
    ensures x == 0 ==> x ^ x == 0
  {
  }

  lemma {:induction false} XorOfBytes(x: bv8, y: bv8, n: nat)
    requires AsByte(x) < Power2(n) && AsByte(y) < Power2(n)
    ensures XorBits(AsByte(x), AsByte(y)) == AsByte(x ^ y)
    decreases n
  {
    hide AsByte;
    if n == 0 {
      NoBits(x);
      NoBits(y);
      NoBits(x ^ y);
    } else {
      hide XorBits;
      HalfOfBits(x);
      HalfOfBits(y);
      HalfOfBits(x ^ y);
      LastOfBits(x);
      LastOfBits(y);
      LastOfBits(x ^ y);
      XorOfBits(x, y);
      XorOfBytes(x >> 1, y >> 1, n - 1);
      XorParts(AsByte(x), AsByte(y));
      SameHalves(XorBits(AsByte(x), AsByte(y)), AsByte(x ^ y));
    }
  }

  lemma HalfOfSum(a: nat, p: nat, x: nat)
    ensures (a * (2 * p) + x) / 2 == a * p + x / 2 && (a * (2 * p) + x) % 2 == x % 2
  {
    assert a * (2 * p) == 2 * (a * p);
  }

  lemma XorConcatStep(a: nat, b: nat, x: nat, y: nat, p: nat)
    requires XorBits(a * p + x / 2, b * p + y / 2) == XorBits(a, b) * p + XorBits(x / 2, y / 2)
    ensures XorBits(a * (2 * p) + x, b * (2 * p) + y) == XorBits(a, b) * (2 * p) + XorBits(x, y)
  {
    hide XorBits;
    HalfOfSum(a, p, x);
    HalfOfSum(b, p, y);
    HalfOfSum(XorBits(a, b), p, XorBits(x, y));
    XorParts(a * (2 * p) + x, b * (2 * p) + y);
    XorParts(x, y);
    SameHalves(XorBits(a * (2 * p) + x, b * (2 * p) + y), XorBits(a, b) * (2 * p) + XorBits(x, y));
  }

  /** The low `n` bits do not meet the others. */
  lemma {:induction false} XorConcat(a: nat, b: nat, x: nat, y: nat, n: nat)
    requires x < Power2(n) && y < Power2(n)
    ensures XorBits(a * Power2(n) + x, b * Power2(n) + y) == XorBits(a, b) * Power2(n) + XorBits(x, y)
    decreases n
  {
    if n == 0 {
      assert a * Power2(0) == a && b * Power2(0) == b;
    } else {
      XorConcat(a, b, x / 2, y / 2, n - 1);
      assert Power2(n) == 2 * Power2(n - 1);
      hide XorBits, Power2;
      XorConcatStep(a, b, x, y, Power2(n - 1));
    }
  }

  /** Byte `i` of a constant. */
  function ByteAt(x: bv32, i: nat): bv8
    requires i < 4
  {
    match i
    case 0 => (x & 0xFF) as bv8
    case 1 => ((x >> 8) & 0xFF) as bv8
    case 2 => ((x >> 16) & 0xFF) as bv8
    case 3 => (x >> 24) as bv8
  }

  lemma WordOfBytes(x: bv32)
    ensures ToWord(x) == LoadWord(Bytes4(x)[0], Bytes4(x)[1], Bytes4(x)[2], Bytes4(x)[3])
  {
  }

  lemma ByteOfXor(x: bv32, y: bv32)
    ensures forall i: nat :: i < 4 ==> ByteAt(x ^ y, i) == ByteAt(x, i) ^ ByteAt(y, i)
  {
  }

  lemma XorOfFour(x: seq<byte>, y: seq<byte>, z: seq<byte>)
    requires |x| == |y| == |z| == 4 && forall i :: 0 <= i < 4 ==> XorBits(x[i], y[i]) == z[i]
    ensures Xor(LoadWord(x[0], x[1], x[2], x[3]), LoadWord(y[0], y[1], y[2], y[3])) == LoadWord(z[0], z[1], z[2], z[3])
  {
    hide XorBits, Power2;
    Power2Values();
    var x3: nat, y3: nat, z3: nat := x[3], y[3], z[3];
    var x32, y32, z32 := x3 * 256 + x[2], y3 * 256 + y[2], z3 * 256 + z[2];
    var x321, y321, z321 := x32 * 256 + x[1], y32 * 256 + y[1], z32 * 256 + z[1];
    XorConcat(x3, y3, x[2], y[2], 8);
    XorConcat(x32, y32, x[1], y[1], 8);
    XorConcat(x321, y321, x[0], y[0], 8);
  }

  lemma XorOfWords(x: bv32, y: bv32)
    ensures Xor(ToWord(x), ToWord(y)) == ToWord(x ^ y)
  {
    hide Xor, ByteAt, XorBits, AsByte, Power2, LoadWord, ToWord;
    Power2Values();
    WordOfBytes(x);
    WordOfBytes(y);
    WordOfBytes(x ^ y);
    ByteOfXor(x, y);
    var xs, ys, zs := Bytes4(x), Bytes4(y), Bytes4(x ^ y);
    forall i | 0 <= i < 4 ensures XorBits(xs[i], ys[i]) == zs[i] {
      XorOfBytes(ByteAt(x, i), ByteAt(y, i), 8);
    }
    XorOfFour(xs, ys, zs);
  }

  function Bytes4(x: bv32): (s: seq<byte>)
    ensures |s| == 4
  {
    seq(4, i requires 0 <= i < 4 => AsByte(ByteAt(x, i)))
  }

  function BvXor(x: bv32, y: bv32): bv32 { x ^ y }

  lemma XorOfConstants(x: bv32, y: bv32)
    ensures Xor(ToWord(x), ToWord(y)) == ToWord(BvXor(x, y))
  {
    hide Xor, ToWord;
    XorOfWords(x, y);
  }

  function Halves(left: bv32, right: bv32): Block<word> { Block(ToWord(left), ToWord(right)) }

  // ------------------------------------------------------------------- XTEA

  function Shl4(v: bv32): bv32 { v << 4 }

  function Shr5(v: bv32): bv32 { v >> 5 }

  function BvAdd(x: bv32, y: bv32): bv32 { x + y }

  /** `c` is `a` plus what a half round adds to it under the zero key; on constants, all of this is evaluated. */
  predicate HalfRound(a: bv32, b: bv32, sum: bv32, c: bv32) {
    var mixed := BvXor(Shl4(b), Shr5(b));
    var term := BvAdd(mixed, b);
    && ToWord(Shl4(b)) == (ToWord(b) * 16) % 0x1_0000_0000 && ToWord(Shr5(b)) == ToWord(b) / 32
    && ToWord(term) == Add(ToWord(mixed), ToWord(b)) && ToWord(c) == Add(ToWord(a), ToWord(BvXor(term, sum)))
  }

  lemma TermOfZeroKey(k: Xtea.Key, b: word, sum: word, w: word)
    requires k == [0, 0, 0, 0] && Xor((b * 16) % 0x1_0000_0000, b / 32) == w
    ensures Xtea.LeftTerm(k, sum, b) == Xtea.RightTerm(k, sum, b) == Xor(Add(w, b), sum)
  {
    hide Xor;
    assert Add(sum, 0) == sum;
  }

  lemma HalfRoundIsTerm(k: Xtea.Key, a: bv32, b: bv32, sum: bv32, c: bv32)
    requires k == [0, 0, 0, 0] && HalfRound(a, b, sum, c)
    ensures ToWord(c) == Add(ToWord(a), Xtea.LeftTerm(k, ToWord(sum), ToWord(b)))
    ensures ToWord(c) == Add(ToWord(a), Xtea.RightTerm(k, ToWord(sum), ToWord(b)))
  {
    hide Xor, ToWord, Add, Xtea.LeftTerm, Xtea.RightTerm, BvXor, Shl4, Shr5, BvAdd;
    var mixed := BvXor(Shl4(b), Shr5(b));
    XorOfConstants(Shl4(b), Shr5(b));
    XorOfConstants(BvAdd(mixed, b), sum);
    TermOfZeroKey(k, ToWord(b), ToWord(sum), ToWord(mixed));
  }

  lemma XteaRound(k: Xtea.Key, i: nat, sum: bv32, next: bv32, a: bv32, b: bv32, c: bv32, d: bv32)
    requires k == [0, 0, 0, 0] && Xtea.Rounds(Block(0, 0), k, i) == Halves(a, b)
    requires ToWord(sum) == (i * 0x9E3779B9) % 0x1_0000_0000 && ToWord(next) == Add(ToWord(sum), 0x9E3779B9)
    requires HalfRound(a, b, sum, c) && HalfRound(b, c, next, d)
    ensures Xtea.Rounds(Block(0, 0), k, i + 1) == Halves(c, d)
  {
    hide ToWord, HalfRound, Xtea.LeftTerm, Xtea.RightTerm, Add;
    Xtea.SumIsMultiple(i);
    HalfRoundIsTerm(k, a, b, sum, c);
    HalfRoundIsTerm(k, b, c, next, d);
  }

  lemma {:induction false} XorZero(w: nat)
    ensures XorBits(0, w) == w
  {
    if w > 0 {
      XorZero(w / 2);
    }
  }

  lemma XorZeroWord(w: word)
    ensures Xor(0, w) == w
  {
    XorZero(w);
  }

  lemma MixZero()
    ensures Xtea.Mix(0) == 0
  {
    hide Xor;
    XorZeroWord(0);
  }

  lemma SumsStart()
    ensures Xtea.Sum(0) == 0
  {
  }

  /** On zeros, the first round only lets the constant in. */
  lemma FirstRound(k: Xtea.Key)
    requires k == [0, 0, 0, 0]
    ensures Xtea.Rounds(Block(0, 0), k, 1) == Halves(0x00000000, 0x9E3779B9)
  {
    hide Xor;
    XorZeroWord(0);
    XorZeroWord(0x9E3779B9);
    MixZero();
    SumsStart();
    hide Xtea.Mix, Xtea.Sum;
    assert ToWord(0) == 0 && ToWord(0x9E3779B9) == 0x9E3779B9;
    assert Xtea.LeftTerm(k, 0, 0) == 0 && Xtea.RightTerm(k, 0x9E3779B9, 0) == 0x9E3779B9;
    hide Xtea.LeftTerm, Xtea.RightTerm;
    Xtea.NoRounds(Block(0, 0), k);
    assert Xtea.Rounds(Block(0, 0), k, 1) == Xtea.Round(Block(0, 0), k, 0);
  }

  lemma Rounds2To3(k: Xtea.Key)
    requires k == [0, 0, 0, 0] && Xtea.Rounds(Block(0, 0), k, 1) == Halves(0x00000000, 0x9E3779B9)
    ensures Xtea.Rounds(Block(0, 0), k, 3) == Halves(0x764F3FFD, 0x9501C7AE)
  {
    hide Xtea.Rounds, Xor, Halves;
    XteaRound(k, 1, 0x9E3779B9, 0x3C6EF372, 0x00000000, 0x9E3779B9, 0x1B8AE3AF, 0x8DCB1CA7);
    XteaRound(k, 2, 0x3C6EF372, 0xDAA66D2B, 0x1B8AE3AF, 0x8DCB1CA7, 0x764F3FFD, 0x9501C7AE);
  }

  lemma Rounds4To5(k: Xtea.Key)
    requires k == [0, 0, 0, 0] && Xtea.Rounds(Block(0, 0), k, 3) == Halves(0x764F3FFD, 0x9501C7AE)
    ensures Xtea.Rounds(Block(0, 0), k, 5) == Halves(0xD4B144DA, 0x0D46C4C8)
  {
    hide Xtea.Rounds, Xor, Halves;
    XteaRound(k, 3, 0xDAA66D2B, 0x78DDE6E4, 0x764F3FFD, 0x9501C7AE, 0xA95F919D, 0xD7D057CB);
    XteaRound(k, 4, 0x78DDE6E4, 0x1715609D, 0xA95F919D, 0xD7D057CB, 0xD4B144DA, 0x0D46C4C8);
  }

  lemma Rounds6To7(k: Xtea.Key)
    requires k == [0, 0, 0, 0] && Xtea.Rounds(Block(0, 0), k, 5) == Halves(0xD4B144DA, 0x0D46C4C8)
    ensures Xtea.Rounds(Block(0, 0), k, 7) == Halves(0xA0FE182E, 0x3A2F1F9D)
  {
    hide Xtea.Rounds, Xor, Halves;
    XteaRound(k, 5, 0x1715609D, 0xB54CDA56, 0xD4B144DA, 0x0D46C4C8, 0xCB09A4CD, 0x41CE415D);
    XteaRound(k, 6, 0xB54CDA56, 0x5384540F, 0xCB09A4CD, 0x41CE415D, 0xA0FE182E, 0x3A2F1F9D);
  }

  lemma Rounds8To9(k: Xtea.Key)
    requires k == [0, 0, 0, 0] && Xtea.Rounds(Block(0, 0), k, 7) == Halves(0xA0FE182E, 0x3A2F1F9D)
    ensures Xtea.Rounds(Block(0, 0), k, 9) == Halves(0xBB3156A7, 0x144FF25D)
  {
    hide Xtea.Rounds, Xor, Halves;
    XteaRound(k, 7, 0x5384540F, 0xF1BBCDC8, 0xA0FE182E, 0x3A2F1F9D, 0x2FCA0CF4, 0x16428170);
    XteaRound(k, 8, 0xF1BBCDC8, 0x8FF34781, 0x2FCA0CF4, 0x16428170, 0xBB3156A7, 0x144FF25D);
  }

  lemma Rounds10To11(k: Xtea.Key)
    requires k == [0, 0, 0, 0] && Xtea.Rounds(Block(0, 0), k, 9) == Halves(0xBB3156A7, 0x144FF25D)
    ensures Xtea.Rounds(Block(0, 0), k, 11) == Halves(0x652A8BD8, 0x1FF949BB)
  {
    hide Xtea.Rounds, Xor, Halves;
    XteaRound(k, 9, 0x8FF34781, 0x2E2AC13A, 0xBB3156A7, 0x144FF25D, 0x928F61C5, 0xA52AFA76);
    XteaRound(k, 10, 0x2E2AC13A, 0xCC623AF3, 0x928F61C5, 0xA52AFA76, 0x652A8BD8, 0x1FF949BB);
  }

  lemma Rounds12To13(k: Xtea.Key)
    requires k == [0, 0, 0, 0] && Xtea.Rounds(Block(0, 0), k, 11) == Halves(0x652A8BD8, 0x1FF949BB)
    ensures Xtea.Rounds(Block(0, 0), k, 13) == Halves(0xB31404C6, 0xE0D465F4)
  {
    hide Xtea.Rounds, Xor, Halves;
    XteaRound(k, 11, 0xCC623AF3, 0x6A99B4AC, 0x652A8BD8, 0x1FF949BB, 0x38312D23, 0xF196868B);
    XteaRound(k, 12, 0x6A99B4AC, 0x08D12E65, 0x38312D23, 0xF196868B, 0xB31404C6, 0xE0D465F4);
  }

  lemma Rounds14To15(k: Xtea.Key)
    requires k == [0, 0, 0, 0] && Xtea.Rounds(Block(0, 0), k, 13) == Halves(0xB31404C6, 0xE0D465F4)
    ensures Xtea.Rounds(Block(0, 0), k, 15) == Halves(0x3D58EEC2, 0xDCD658CF)
  {
    hide Xtea.Rounds, Xor, Halves;
    XteaRound(k, 13, 0x08D12E65, 0xA708A81E, 0xB31404C6, 0xE0D465F4, 0x96D850CC, 0x87D91D00);
    XteaRound(k, 14, 0xA708A81E, 0x454021D7, 0x96D850CC, 0x87D91D00, 0x3D58EEC2, 0xDCD658CF);
  }

  lemma Rounds16To17(k: Xtea.Key)
    requires k == [0, 0, 0, 0] && Xtea.Rounds(Block(0, 0), k, 15) == Halves(0x3D58EEC2, 0xDCD658CF)
    ensures Xtea.Rounds(Block(0, 0), k, 17) == Halves(0x25E10765, 0x1501D2F8)
  {
    hide Xtea.Rounds, Xor, Halves;
    XteaRound(k, 15, 0x454021D7, 0xE3779B90, 0x3D58EEC2, 0xDCD658CF, 0x2A72A594, 0x1072425F);
    XteaRound(k, 16, 0xE3779B90, 0x81AF1549, 0x2A72A594, 0x1072425F, 0x25E10765, 0x1501D2F8);
  }

  lemma Rounds18To19(k: Xtea.Key)
    requires k == [0, 0, 0, 0] && Xtea.Rounds(Block(0, 0), k, 17) == Halves(0x25E10765, 0x1501D2F8)
    ensures Xtea.Rounds(Block(0, 0), k, 19) == Halves(0xA9252F87, 0xC99BA4C2)
  {
    hide Xtea.Rounds, Xor, Halves;
    XteaRound(k, 17, 0x81AF1549, 0x1FE68F02, 0x25E10765, 0x1501D2F8, 0x09FAE8AB, 0xCB3C9C9A);
    XteaRound(k, 18, 0x1FE68F02, 0xBE1E08BB, 0x09FAE8AB, 0xCB3C9C9A, 0xA9252F87, 0xC99BA4C2);
  }

  lemma Rounds20To21(k: Xtea.Key)
    requires k == [0, 0, 0, 0] && Xtea.Rounds(Block(0, 0), k, 19) == Halves(0xA9252F87, 0xC99BA4C2)
    ensures Xtea.Rounds(Block(0, 0), k, 21) == Halves(0xAFB5A558, 0xF47E3AA6)
  {
    hide Xtea.Rounds, Xor, Halves;
    XteaRound(k, 19, 0xBE1E08BB, 0x5C558274, 0xA9252F87, 0xC99BA4C2, 0x80B16CFA, 0x9D2CD877);
    XteaRound(k, 20, 0x5C558274, 0xFA8CFC2D, 0x80B16CFA, 0x9D2CD877, 0xAFB5A558, 0xF47E3AA6);
  }

  lemma Rounds22To23(k: Xtea.Key)
    requires k == [0, 0, 0, 0] && Xtea.Rounds(Block(0, 0), k, 21) == Halves(0xAFB5A558, 0xF47E3AA6)
    ensures Xtea.Rounds(Block(0, 0), k, 23) == Halves(0x221DC505, 0x2C236112)
  {
    hide Xtea.Rounds, Xor, Halves;
    XteaRound(k, 21, 0xFA8CFC2D, 0x98C475E6, 0xAFB5A558, 0xF47E3AA6, 0x7DE80FCE, 0xB811F430);
    XteaRound(k, 22, 0x98C475E6, 0x36FBEF9F, 0x7DE80FCE, 0xB811F430, 0x221DC505, 0x2C236112);
  }

  lemma Rounds24To25(k: Xtea.Key)
    requires k == [0, 0, 0, 0] && Xtea.Rounds(Block(0, 0), k, 23) == Halves(0x221DC505, 0x2C236112)
    ensures Xtea.Rounds(Block(0, 0), k, 25) == Halves(0xF6F126EA, 0xC6161271)
  {
    hide Xtea.Rounds, Xor, Halves;
    XteaRound(k, 23, 0x36FBEF9F, 0xD5336958, 0x221DC505, 0x2C236112, 0xFB9F49AA, 0x991824E1);
    XteaRound(k, 24, 0xD5336958, 0x736AE311, 0xFB9F49AA, 0x991824E1, 0xF6F126EA, 0xC6161271);
  }

  lemma Rounds26To27(k: Xtea.Key)
    requires k == [0, 0, 0, 0] && Xtea.Rounds(Block(0, 0), k, 25) == Halves(0xF6F126EA, 0xC6161271)
    ensures Xtea.Rounds(Block(0, 0), k, 27) == Halves(0x580D5B0C, 0xEFAE339F)
  {
    hide Xtea.Rounds, Xor, Halves;
    XteaRound(k, 25, 0x736AE311, 0x11A25CCA, 0xF6F126EA, 0xC6161271, 0x54FE71CF, 0x79B34FF8);
    XteaRound(k, 26, 0x11A25CCA, 0xAFD9D683, 0x54FE71CF, 0x79B34FF8, 0x580D5B0C, 0xEFAE339F);
  }

  lemma Rounds28To29(k: Xtea.Key)
    requires k == [0, 0, 0, 0] && Xtea.Rounds(Block(0, 0), k, 27) == Halves(0x580D5B0C, 0xEFAE339F)
    ensures Xtea.Rounds(Block(0, 0), k, 29) == Halves(0xBFA7B891, 0x4AADEF6B)
  {
    hide Xtea.Rounds, Xor, Halves;
    XteaRound(k, 27, 0xAFD9D683, 0x4E11503C, 0x580D5B0C, 0xEFAE339F, 0x9AA30594, 0xF7474ADB);
    XteaRound(k, 28, 0x4E11503C, 0xEC48C9F5, 0x9AA30594, 0xF7474ADB, 0xBFA7B891, 0x4AADEF6B);
  }

  lemma Rounds30To31(k: Xtea.Key)
    requires k == [0, 0, 0, 0] && Xtea.Rounds(Block(0, 0), k, 29) == Halves(0xBFA7B891, 0x4AADEF6B)
    ensures Xtea.Rounds(Block(0, 0), k, 31) == Halves(0x7E41C39B, 0xF5563DFB)
  {
    hide Xtea.Rounds, Xor, Halves;
    XteaRound(k, 29, 0xEC48C9F5, 0x8A8043AE, 0xBFA7B891, 0x4AADEF6B, 0xDF18F954, 0xA6BDF7DB);
    XteaRound(k, 30, 0x8A8043AE, 0x28B7BD67, 0xDF18F954, 0xA6BDF7DB, 0x7E41C39B, 0xF5563DFB);
  }

  lemma Rounds32To32(k: Xtea.Key)
    requires k == [0, 0, 0, 0] && Xtea.Rounds(Block(0, 0), k, 31) == Halves(0x7E41C39B, 0xF5563DFB)
    ensures Xtea.Rounds(Block(0, 0), k, 32) == Halves(0xDEE9D4D8, 0xF7131ED9)
  {
    hide Xtea.Rounds, Xor, Halves;
    XteaRound(k, 31, 0x28B7BD67, 0xC6EF3720, 0x7E41C39B, 0xF5563DFB, 0xDEE9D4D8, 0xF7131ED9);
  }

  /** The published vector: the zero block under the zero key. */
  lemma XteaZeroVector(s: Octets, k: Xtea.Key)
    requires s == [0, 0, 0, 0, 0, 0, 0, 0] && k == [0, 0, 0, 0]
    ensures Xtea.Encrypt(s, k) == StoreWord(0xDEE9D4D8) + StoreWord(0xF7131ED9)
  {
    hide Xtea.Rounds;
    assert Load(s) == Block(0, 0) == Halves(0, 0);
    FirstRound(k);
    Rounds2To3(k);
    Rounds4To5(k);
    Rounds6To7(k);
    Rounds8To9(k);
    Rounds10To11(k);
    Rounds12To13(k);
    Rounds14To15(k);
    Rounds16To17(k);
    Rounds18To19(k);
    Rounds20To21(k);
    Rounds22To23(k);
    Rounds24To25(k);
    Rounds26To27(k);
    Rounds28To29(k);
    Rounds30To31(k);
    Rounds32To32(k);
  }
}
