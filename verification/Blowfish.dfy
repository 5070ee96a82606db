/** The Blowfish form of the RTMPE signature (handshake type 9). */
module Blowfish {
  import opened Bytes
  import opened Words
  import opened Arithmetic

  const BF_ROUNDS: nat := 16

  /** The number of rounds, taken from the key so that the verifier does not unroll them. */
  function NumRounds(p: Subkeys): (n: nat)
    ensures n == BF_ROUNDS
  {
    |p| - 2
  }

  const KEYBYTES: nat := 24

  /** 16 round keys and two whitening keys. */
  type Subkeys = p: seq<word> | |p| == 18 witness seq(18, _ => 0)

  /** The four S-boxes one after the other: `s[i][j]` is element `256 * i + j`. */
  type SBoxes = s: seq<word> | |s| == 1024 witness seq(1024, _ => 0)

  /** `BF_ENC`: the round function. */
  function F(x: word, s: SBoxes): word {
    Add(Xor(Add(s[x / 0x100_0000], s[256 + (x / 0x1_0000) % 0x100]), s[512 + (x / 0x100) % 0x100]), s[768 + x % 0x100])
  }

  function Round(b: Block<word>, subkey: word, s: SBoxes): Block<word> {
    var left := Xor(b.left, subkey);
    Block(Xor(b.right, F(left, s)), left)
  }

  function Rounds(b: Block<word>, p: Subkeys, s: SBoxes, n: nat): Block<word>
    requires n <= BF_ROUNDS
  {
    if n == 0 then b else Round(Rounds(b, p, s, n - 1), p[n - 1], s)
  }

  function Encrypt(b: Block<word>, p: Subkeys, s: SBoxes): Block<word> {
    var c := Rounds(b, p, s, NumRounds(p));
    Block(Xor(c.right, p[17]), Xor(c.left, p[16]))
  }

  // ------------------------------------------------------------- inversion

  function Reversed(p: Subkeys): (r: Subkeys)
    ensures forall i :: 0 <= i < 18 ==> r[i] == p[17 - i]
  {
    seq(18, i requires 0 <= i < 18 => p[17 - i])
  }

  lemma XorCancels(a: word, x: word)
    ensures Xor(Xor(a, x), x) == a
  {
    XorTwice(a, x);
  }

  lemma XorCancelsAcross(a: word, f: word, x: word)
    ensures Xor(Xor(Xor(a, f), x), f) == Xor(a, x)
  {
    XorSwap(Xor(a, f), x, f);
    XorTwice(a, f);
  }

  /** After `j` rounds with the reversed subkeys, the block is the one before round `16 - j`, still whitened. */
  lemma {:induction false} RoundsUndone(b: Block<word>, p: Subkeys, s: SBoxes, j: nat)
    requires j <= BF_ROUNDS
    ensures var c := Rounds(b, p, s, NumRounds(p) - j);
            Rounds(Encrypt(b, p, s), Reversed(p), s, j) == Block(Xor(c.right, p[17 - j]), Xor(c.left, p[16 - j]))
  {
    hide Xor, F;
    if j > 0 {
      RoundsUndone(b, p, s, j - 1);
      var c := Rounds(b, p, s, NumRounds(p) - j);
      var d := Round(c, p[16 - j], s);
      assert d == Rounds(b, p, s, NumRounds(p) - (j - 1));
      XorCancels(d.right, p[18 - j]);
      XorCancelsAcross(c.right, F(d.right, s), p[17 - j]);
    }
  }

  /** Running the cipher again with the subkeys in reverse order restores the block. */
  lemma Inverts(b: Block<word>, p: Subkeys, s: SBoxes)
    ensures Encrypt(Encrypt(b, p, s), Reversed(p), s) == b
    ensures Encrypt(Encrypt(b, Reversed(p), s), p, s) == b
  {
    hide Encrypt;
    ReversedInverts(b, p, s);
    ReversedInverts(b, Reversed(p), s);
    assert Reversed(Reversed(p)) == p;
  }

  lemma ReversedInverts(b: Block<word>, p: Subkeys, s: SBoxes)
    ensures Encrypt(Encrypt(b, p, s), Reversed(p), s) == b
  {
    hide Xor, F;
    RoundsUndone(b, p, s, NumRounds(p));
    XorCancels(b.right, p[1]);
    XorCancels(b.left, p[0]);
  }

  // ------------------------------------------------------- what the cipher computes

  lemma BytesOfWord(b0: byte, b1: byte, b2: byte, b3: byte)
    ensures var x := LoadWord(b3, b2, b1, b0);
            x / 0x100_0000 == b0 && (x / 0x1_0000) % 0x100 == b1 && (x / 0x100) % 0x100 == b2 && x % 0x100 == b3
  {
    var top: nat := b0;
    var high := b1 + 256 * top;
    var rest := b2 + 256 * high;
    var x := b3 + 256 * rest;
    assert x / 256 == rest && rest / 256 == high && high / 256 == top;
    assert x / 65536 == high && x / 16777216 == top;
  }

  /** The round function on the bytes of a word, the most significant first: the entries of the first two S-boxes are
      added, then comes the exclusive or with the third, then the addition of the fourth. */
  lemma FOpened(b0: byte, b1: byte, b2: byte, b3: byte, s: SBoxes)
    ensures var f := F(LoadWord(b3, b2, b1, b0), s);
            Xor(Sub(f, s[768 + b3]), s[512 + b2]) == Add(s[b0], s[256 + b1])
  {
    var sum, third := Add(s[b0], s[256 + b1]), s[512 + b2];
    XorCancels(sum, third);
    hide Xor;
    BytesOfWord(b0, b1, b2, b3);
    SubAdd(Xor(sum, third), s[768 + b3]);
    hide Add, Sub, LoadWord;
    assert F(LoadWord(b3, b2, b1, b0), s) == Add(Xor(sum, third), s[768 + b3]);
  }

  /** The cipher as a recurrence over 18 words `x`, in which the swaps have disappeared. */
  ghost predicate IsRecurrence(x: seq<word>, b: Block<word>, p: seq<word>, s: SBoxes)
    requires |p| == 18
  {
    && |x| == 18 && x[0] == b.right && x[1] == Xor(b.left, p[0])
    && forall i :: 0 <= i < 16 ==> x[i + 2] == Xor(Xor(x[i], F(x[i + 1], s)), p[i + 1])
  }

  lemma NextRound(b: Block<word>, p: Subkeys, s: SBoxes, n: nat)
    requires n < BF_ROUNDS
    ensures Rounds(b, p, s, n + 1) == Round(Rounds(b, p, s, n), p[n], s)
  {
  }

  lemma {:induction false} RecurrenceIsRounds(x: seq<word>, b: Block<word>, p: Subkeys, s: SBoxes, n: nat)
    requires IsRecurrence(x, b, p, s) && n < BF_ROUNDS
    ensures var c := Rounds(b, p, s, n); x[n] == c.right && x[n + 1] == Xor(c.left, p[n])
  {
    hide Xor, F;
    if n > 0 {
      RecurrenceIsRounds(x, b, p, s, n - 1);
      NextRound(b, p, s, n - 1);
      assert x[n - 1 + 2] == Xor(Xor(x[n - 1], F(x[n], s)), p[n]);
    }
  }

  /** 16 rounds, and the last two words leave crosswise, one of them whitened. */
  lemma EncryptIsRecurrence(x: seq<word>, b: Block<word>, p: Subkeys, s: SBoxes)
    requires IsRecurrence(x, b, p, s)
    ensures Encrypt(b, p, s) == Block(Xor(x[16], p[17]), x[17])
  {
    hide Xor, F;
    RecurrenceIsRounds(x, b, p, s, 15);
    NextRound(b, p, s, 15);
    assert x[15 + 2] == Xor(Xor(x[15], F(x[16], s)), p[16]);
  }

  /** There always is such a sequence, so that the recurrence determines the cipher. */
  lemma RecurrenceExists(b: Block<word>, p: Subkeys, s: SBoxes) returns (x: seq<word>)
    ensures IsRecurrence(x, b, p, s)
  {
    hide Xor, F;
    x := [b.right, Xor(b.left, p[0])];
    for n := 0 to 16
      invariant |x| == n + 2 && x[0] == b.right && x[1] == Xor(b.left, p[0])
      invariant forall i :: 0 <= i < n ==> x[i + 2] == Xor(Xor(x[i], F(x[i + 1], s)), p[i + 1])
    {
      x := x + [Xor(Xor(x[n], F(x[n + 1], s)), p[n + 1])];
    }
  }

  // ----------------------------------------------------------- key schedule

  /** The constant tables `bf_pinit` and `bf_sinit`; every result holds for any contents. */
  datatype Tables = Tables(p: Subkeys, s: SBoxes)

  /** All 1042 words of a key in the order in which the schedule replaces them. */
  type KeyWords = w: seq<word> | |w| == 1042 witness seq(1042, _ => 0)

  const NUM_STEPS: nat := 521

  function NumSteps(w: KeyWords): (n: nat)
    ensures n == NUM_STEPS
  {
    |w| / 2
  }

  function EncryptWith(b: Block<word>, w: KeyWords): Block<word> { Encrypt(b, w[..18], w[18..]) }

  /** The first `k` of the four key bytes that are folded into subkey `i`, most significant first: the key repeats
      cyclically. */
  function KeyBytes(kp: Bytes, i: nat, k: nat): (w: word)
    requires kp != [] && k <= 4
    ensures k == 0 ==> w == 0
    ensures k == 1 ==> w < 0x100
    ensures k == 2 ==> w < 0x1_0000
    ensures k == 3 ==> w < 0x100_0000
  {
    if k == 0 then 0 else 0x100 * KeyBytes(kp, i, k - 1) + kp[(4 * i + k - 1) % |kp|]
  }

  function Folded(t: Tables, kp: Bytes): Subkeys
    requires kp != []
  {
    seq(18, i requires 0 <= i < 18 => Xor(t.p[i], KeyBytes(kp, i, 4)))
  }

  function InitialWords(t: Tables, kp: Bytes): KeyWords
    requires kp != []
  {
    Folded(t, kp) + t.s
  }

  /** The key starts as the S-boxes as they are and the subkeys with four key bytes each, the first of them on top. */
  lemma InitialWordsOpened(t: Tables, kp: Bytes, i: nat)
    requires kp != [] && i < 18
    ensures InitialWords(t, kp)[18..] == t.s
    ensures InitialWords(t, kp)[i] == Xor(t.p[i], LoadWord(kp[(4 * i + 3) % |kp|], kp[(4 * i + 2) % |kp|],
                                                           kp[(4 * i + 1) % |kp|], kp[(4 * i) % |kp|]))
  {
    hide Xor;
    var k1, k2, k3, k4 := KeyBytes(kp, i, 1), KeyBytes(kp, i, 2), KeyBytes(kp, i, 3), KeyBytes(kp, i, 4);
    assert KeyBytes(kp, i, 0) == 0;
    assert k1 == kp[(4 * i) % |kp|] && k2 == 0x100 * k1 + kp[(4 * i + 1) % |kp|];
    assert k3 == 0x100 * k2 + kp[(4 * i + 2) % |kp|] && k4 == 0x100 * k3 + kp[(4 * i + 3) % |kp|];
  }

  /** The schedule after `n` encryptions: the last output, and the partly replaced key. */
  datatype Progress = Progress(d: Block<word>, w: KeyWords)

  function Replace(w: KeyWords, n: nat, d: Block<word>): (r: KeyWords)
    requires n < NUM_STEPS
    ensures Pair(r, n + 1) == d
  {
    w[2 * n := d.left][2 * n + 1 := d.right]
  }

  function Chain(w0: KeyWords, n: nat): Progress
    requires n <= NUM_STEPS
  {
    if n == 0 then Progress(Block(0, 0), w0)
    else
      var g := Chain(w0, n - 1);
      var d := EncryptWith(g.d, g.w);
      Progress(d, Replace(g.w, n - 1, d))
  }

  function Schedule(t: Tables, kp: Bytes): KeyWords
    requires kp != []
  {
    var w0 := InitialWords(t, kp);
    Chain(w0, NumSteps(w0)).w
  }

  /** The pair of words that step `n` leaves, as the block that step `n + 1` encrypts. */
  function Pair(k: KeyWords, n: nat): Block<word>
    requires n <= NUM_STEPS
  {
    if n == 0 then Block(0, 0) else Block(k[2 * n - 2], k[2 * n - 1])
  }

  /** Step `n` reads the first `2n` words of the result and the words it has not reached yet. */
  function Partly(k: KeyWords, w0: KeyWords, n: nat): KeyWords
    requires n <= NUM_STEPS
  {
    k[..2 * n] + w0[2 * n..]
  }

  /** `k` solves the first `count` equations of the schedule that starts from `w0`: every pair of words is the
      encryption of the pair before it, under the key whose earlier words are already those of `k` and whose later ones
      are still `w0`'s. */
  ghost predicate Solves(k: KeyWords, w0: KeyWords, count: nat)
    requires count <= NUM_STEPS
  {
    forall n: nat :: n < count ==> Equation(k, w0, n)
  }

  predicate Equation(k: KeyWords, w0: KeyWords, n: nat)
    requires n < NUM_STEPS
  {
    Pair(k, n + 1) == EncryptWith(Pair(k, n), Partly(k, w0, n))
  }

  lemma PartlyStep(k: KeyWords, w0: KeyWords, n: nat)
    requires n < NUM_STEPS
    ensures Replace(Partly(k, w0, n), n, Pair(k, n + 1)) == Partly(k, w0, n + 1)
  {
  }

  /** Any key that solves the first `n` equations agrees with the chain so far. */
  lemma {:induction false} SolutionPrefix(k: KeyWords, w0: KeyWords, n: nat)
    requires n <= NUM_STEPS && Solves(k, w0, n)
    ensures Chain(w0, n) == Progress(Pair(k, n), Partly(k, w0, n))
  {
    hide Encrypt;
    if n == 0 {
      assert Partly(k, w0, 0) == w0;
    } else {
      SolutionPrefix(k, w0, n - 1);
      PartlyStep(k, w0, n - 1);
      assert Equation(k, w0, n - 1);
    }
  }

  lemma ReplaceKeepsPrefix(w: KeyWords, n: nat, d: Block<word>, w0: KeyWords, m: nat)
    requires m <= n < NUM_STEPS
    ensures Partly(Replace(w, n, d), w0, m) == Partly(w, w0, m)
    ensures Pair(Replace(w, n, d), m) == Pair(w, m)
  {
  }

  lemma EquationKept(w: KeyWords, n: nat, d: Block<word>, w0: KeyWords, m: nat)
    requires m < n < NUM_STEPS && Equation(w, w0, m)
    ensures Equation(Replace(w, n, d), w0, m)
  {
    hide Encrypt;
    ReplaceKeepsPrefix(w, n, d, w0, m);
    ReplaceKeepsPrefix(w, n, d, w0, m + 1);
  }

  /** The chain of `n` encryptions solves the first `n` equations, and leaves the rest of the key alone. */
  lemma {:induction false} ChainSolves(w0: KeyWords, n: nat)
    requires n <= NUM_STEPS
    ensures Solves(Chain(w0, n).w, w0, n)
    ensures Partly(Chain(w0, n).w, w0, n) == Chain(w0, n).w
    ensures Pair(Chain(w0, n).w, n) == Chain(w0, n).d
  {
    hide Encrypt;
    if n == 0 {
      assert Partly(w0, w0, 0) == w0;
    } else {
      ChainSolves(w0, n - 1);
      StepSolves(Chain(w0, n - 1).w, w0, n - 1);
    }
  }

  lemma StepSolves(w: KeyWords, w0: KeyWords, n: nat)
    requires n < NUM_STEPS && Solves(w, w0, n) && Partly(w, w0, n) == w
    ensures var r := Replace(w, n, EncryptWith(Pair(w, n), w)); Solves(r, w0, n + 1) && Partly(r, w0, n + 1) == r
  {
    hide Encrypt;
    var d := EncryptWith(Pair(w, n), w);
    var r := Replace(w, n, d);
    ReplaceKeepsPrefix(w, n, d, w0, n);
    PartlyStep(r, w0, n);
    forall m: nat | m < n ensures Equation(r, w0, m) {
      EquationKept(w, n, d, w0, m);
    }
  }

  /** The chain of 9 + 512 encryptions computes the one solution of those equations. */
  lemma ScheduleIsTheSolution(k: KeyWords, w0: KeyWords)
    ensures Solves(k, w0, NUM_STEPS) <==> k == Chain(w0, NumSteps(w0)).w
  {
    hide Encrypt;
    if Solves(k, w0, NUM_STEPS) {
      SolutionPrefix(k, w0, NumSteps(w0));
    }
    ChainSolves(w0, NumSteps(w0));
  }

  // ------------------------------------------------------ the code, in place

  /** `struct bf_key`. */
  class BfKey {
    const p: array<word>
    const s: array<word>

    ghost predicate Valid() {
      p.Length == 18 && s.Length == 1024 && p != s
    }

    function Contents(): KeyWords
      requires Valid()
      reads p, s
    {
      p[..] + s[..]
    }

    constructor ()
      ensures Valid() && fresh(p) && fresh(s)
    {
      p := new word[18];
      s := new word[1024];
    }
  }

  /** `bf_enc` */
  method BfEnc(x: array<word>, key: BfKey)
    requires x.Length == 2 && key.Valid() && x != key.p && x != key.s
    modifies x
    ensures Block(x[0], x[1]) == EncryptWith(old(Block(x[0], x[1])), key.Contents())
  {
    hide Xor, F;
    ghost var b, p, s := Block(x[0], x[1]), key.p[..], key.s[..];
    var left, right := x[0], x[1];
    for i := 0 to BF_ROUNDS
      invariant x[..] == old(x[..])
      invariant Block(left, right) == Rounds(b, p, s, i)
    {
      left := Xor(left, key.p[i]);
      right := Xor(right, F(left, key.s[..]));
      left, right := right, left;
    }
    left := Xor(left, key.p[BF_ROUNDS]);
    right := Xor(right, key.p[BF_ROUNDS + 1]);
    x[0] := right;
    x[1] := left;
    assert key.Contents()[..18] == p && key.Contents()[18..] == s;
  }

  /** Two consecutive words of the P-array take the halves of `d`. */
  method StoreInP(key: BfKey, i: nat, d: array<word>)
    requires key.Valid() && i % 2 == 0 && i + 1 < 18 && d.Length == 2
    modifies key.p
    ensures key.Contents() == Replace(old(key.Contents()), i / 2, old(Block(d[0], d[1])))
  {
    ghost var w := key.Contents();
    var x, y := d[0], d[1];
    key.p[i] := x;
    key.p[i + 1] := y;
    assert key.Contents() == w[i := x][i + 1 := y];
  }

  /** Two consecutive words of the S-boxes take the halves of `d`. */
  method StoreInS(key: BfKey, i: nat, d: array<word>)
    requires key.Valid() && i % 2 == 0 && i + 1 < 1024 && d.Length == 2
    modifies key.s
    ensures key.Contents() == Replace(old(key.Contents()), 9 + i / 2, old(Block(d[0], d[1])))
  {
    ghost var w := key.Contents();
    var x, y := d[0], d[1];
    key.s[i] := x;
    key.s[i + 1] := y;
    assert key.Contents() == w[18 + i := x][18 + i + 1 := y];
  }

  lemma ChainStart(w0: KeyWords)
    ensures Chain(w0, 0) == Progress(Block(0, 0), w0)
  {
  }

  lemma ChainStep(w0: KeyWords, n: nat, g: Progress)
    requires n < NUM_STEPS && Chain(w0, n) == g
    ensures var d := EncryptWith(g.d, g.w); Chain(w0, n + 1) == Progress(d, Replace(g.w, n, d))
  {
    hide Encrypt;
  }

  /** `bf_setkey` */
  method BfSetKey(kp: Bytes, t: Tables, key: BfKey)
    requires kp != [] && key.Valid()
    modifies key.p, key.s
    ensures key.Contents() == Schedule(t, kp)
  {
    hide Chain, Replace, EncryptWith, InitialWords, BfKey.Contents;
    FoldKey(kp, t, key);
    ghost var w0 := InitialWords(t, kp);
    var d := new word[2];
    d[0], d[1] := 0, 0;
    ChainStart(w0);
    var i := 0;
    while i < BF_ROUNDS + 2
      invariant i <= BF_ROUNDS + 2 && i % 2 == 0 && fresh(d)
      invariant Chain(w0, i / 2) == Progress(Block(d[0], d[1]), key.Contents())
    {
      ChainStep(w0, i / 2, Progress(Block(d[0], d[1]), key.Contents()));
      BfEnc(d, key);
      StoreInP(key, i, d);
      i := i + 2;
    }
    i := 0;
    while i < 4
      invariant i <= 4 && fresh(d)
      invariant Chain(w0, 9 + 128 * i) == Progress(Block(d[0], d[1]), key.Contents())
    {
      var j := 0;
      while j < 256
        invariant j <= 256 && j % 2 == 0 && fresh(d)
        invariant Chain(w0, 9 + 128 * i + j / 2) == Progress(Block(d[0], d[1]), key.Contents())
      {
        ChainStep(w0, 9 + 128 * i + j / 2, Progress(Block(d[0], d[1]), key.Contents()));
        BfEnc(d, key);
        StoreInS(key, 256 * i + j, d);
        j := j + 2;
      }
      i := i + 1;
    }
  }

  /** One subkey's four key bytes, gathered from position `j0` on; the position wraps at the end of the key. */
  method GatherKey(kp: Bytes, i: nat, j0: nat) returns (data: word, j: nat)
    requires kp != [] && j0 == (4 * i) % |kp|
    ensures data == KeyBytes(kp, i, 4)
    ensures j == (4 * (i + 1)) % |kp|
  {
    data, j := 0, j0;
    for k := 0 to 4
      invariant j == (4 * i + k) % |kp|
      invariant data == KeyBytes(kp, i, k)
    {
      NextRemainder(4 * i + k, |kp|);
      data := (data * 0x100) % 0x1_0000_0000 + kp[j];
      j := j + 1;
      if j >= |kp| {
        j := 0;
      }
    }
  }

  /** The first part of `bf_setkey`: the tables are copied in and the key is folded into the P-array. */
  method FoldKey(kp: Bytes, t: Tables, key: BfKey)
    requires kp != [] && key.Valid()
    modifies key.p, key.s
    ensures key.Contents() == InitialWords(t, kp)
  {
    hide Xor, KeyBytes;
    CopyInto(key.p, 0, t.p);
    CopyInto(key.s, 0, t.s);
    var j := 0;
    ghost var folded := Folded(t, kp);
    for i := 0 to BF_ROUNDS + 2
      invariant j == (4 * i) % |kp|
      invariant key.s[..] == t.s
      invariant forall m :: 0 <= m < i ==> key.p[m] == folded[m]
      invariant forall m :: i <= m < 18 ==> key.p[m] == t.p[m]
    {
      var data;
      data, j := GatherKey(kp, i, j);
      key.p[i] := Xor(key.p[i], data);
    }
    assert key.p[..] == folded;
  }

  // ---------------------------------------------------------- the signature

  function EncryptOctets(x: Octets, t: Tables, kp: Bytes): Octets
    requires kp != []
  {
    Store(EncryptWith(Load(x), Schedule(t, kp)))
  }

  /** The inverse the repository does not contain. */
  function DecryptOctets(x: Octets, t: Tables, kp: Bytes): Octets
    requires kp != []
  {
    var w := Schedule(t, kp);
    Store(Encrypt(Load(x), Reversed(w[..18]), w[18..]))
  }

  /** `rtmpe9_sig` is a bijection on 8-byte blocks, whatever the key and the tables. */
  lemma Bijection(x: Octets, t: Tables, kp: Bytes)
    requires kp != []
    ensures DecryptOctets(EncryptOctets(x, t, kp), t, kp) == x
    ensures EncryptOctets(DecryptOctets(x, t, kp), t, kp) == x
  {
    hide Encrypt;
    var w := Schedule(t, kp);
    StoreLoad(x);
    Inverts(Load(x), w[..18], w[18..]);
  }

  /** `rtmpe9_sig`; `input` and `output` may be the same buffer, as they are in both handshakes. */
  method Rtmpe9Sig(input: array<byte>, inAt: nat, output: array<byte>, outAt: nat, t: Tables, kp: Bytes)
    requires inAt + 8 <= input.Length && outAt + 8 <= output.Length && kp != []
    modifies output
    ensures output[..] == Splice(old(output[..]), outAt, EncryptOctets(old(input[inAt..inAt + 8]), t, kp))
  {
    hide Encrypt, Schedule;
    var key := new BfKey();
    BfSetKey(kp, t, key);
    var d := new word[2];
    d[0] := LoadWord(input[inAt], input[inAt + 1], input[inAt + 2], input[inAt + 3]);
    d[1] := LoadWord(input[inAt + 4], input[inAt + 5], input[inAt + 6], input[inAt + 7]);
    BfEnc(d, key);
    CopyInto(output, outAt, Store(Block(d[0], d[1])));
  }
}
