/** Which keys pass the order test that `isValidPublicKey` computes and only writes to its log: the squares modulo the
    prime. The prime is a safe one, p = 2q + 1, with q odd. */
module KeyOrder {
  import opened Arithmetic
  import opened Permutation
  import opened DiffieHellman

  ghost predicate IsPrime(p: nat) { p >= 2 && forall d :: 2 <= d < p ==> p % d != 0 }

  // ------------------------------------------------------- Fermat's little theorem

  /** A prime that divides a product divides a factor: step down from `d` to the remainder that `d` leaves of the
      prime. */
  lemma {:induction false} NoZeroDivisor(a: nat, d: nat, p: nat)
    requires IsPrime(p) && 0 < d < p && (a * d) % p == 0
    ensures a % p == 0
    decreases d
  {
    if d > 1 {
      var k, r, m := p / d, p % d, (a * d) / p;
      assert p == k * d + r && a * d == m * p;
      assert a * p == a * (k * d) + a * r && a * (k * d) == k * (a * d) == k * (m * p) == (k * m) * p;
      assert (a - k * m) * p == a * p - (k * m) * p == a * r;
      MultipleVanishes(0, a - k * m, p);
      NoZeroDivisor(a, r, p);
    }
  }

  lemma DifferenceVanishes(x: nat, y: nat, p: nat)
    requires p > 0 && x >= y && x % p == y % p
    ensures (x - y) % p == 0
  {
    var i, j := x / p, y / p;
    assert x == i * p + x % p && y == j * p + y % p;
    assert (i - j) * p == i * p - j * p;
    MultipleVanishes(0, i - j, p);
  }

  lemma Interchange(a: nat, b: nat, c: nat, d: nat)
    ensures (a * b) * (c * d) == (a * c) * (b * d) == (a * c) * (d * b)
  {
    var cd := c * d;
    assert (a * b) * cd == a * (b * cd);
    assert b * cd == c * (b * d);
    assert a * (c * (b * d)) == (a * c) * (b * d);
  }

  function Product(s: seq<nat>): nat { if s == [] then 1 else Product(s[..|s| - 1]) * s[|s| - 1] }

  lemma {:induction false} ProductConcat(a: seq<nat>, b: seq<nat>)
    ensures Product(a + b) == Product(a) * Product(b)
  {
    if b == [] {
      assert a + b == a;
    } else {
      var last := b[|b| - 1];
      ProductConcat(a, b[..|b| - 1]);
      assert (a + b)[..|a + b| - 1] == a + b[..|b| - 1];
      assert Product(a) * Product(b[..|b| - 1]) * last == Product(a) * (Product(b[..|b| - 1]) * last);
    }
  }

  lemma ProductOfOne(x: nat)
    ensures Product([x]) == x
  {
    assert [x][..0] == [];
  }

  lemma LastFactor(a: nat, x: nat, b: nat)
    ensures (a * x) * b == (a * b) * x
  {
    assert (a * x) * b == a * (x * b) && x * b == b * x && a * (b * x) == (a * b) * x;
  }

  lemma ProductInsert(a: seq<nat>, x: nat, b: seq<nat>)
    ensures Product(a + [x] + b) == Product(a + b) * x
  {
    ProductConcat(a + [x], b);
    ProductConcat(a, [x]);
    ProductConcat(a, b);
    ProductOfOne(x);
    hide Product;
    LastFactor(Product(a), x, Product(b));
  }

  lemma BagWithout(t: seq<nat>, k: nat)
    requires k < |t|
    ensures multiset(t[..k] + t[k + 1..]) == multiset(t) - multiset{t[k]}
  {
    assert t == t[..k] + [t[k]] + t[k + 1..];
  }

  /** The order of the factors makes no difference. */
  lemma {:induction false} ProductOfPermutation(s: seq<nat>, t: seq<nat>)
    requires multiset(s) == multiset(t)
    ensures Product(s) == Product(t)
    decreases |s|
  {
    if s == [] {
      assert |multiset(t)| == 0;
    } else {
      var last := |s| - 1;
      var x := s[last];
      assert x in multiset(s) && x in t;
      var k :| 0 <= k < |t| && t[k] == x;
      var init, rest := s[..last], t[..k] + t[k + 1..];
      BagWithout(s, last);
      BagWithout(t, k);
      assert s[..last] + s[last + 1..] == init;
      assert t == t[..k] + [x] + t[k + 1..];
      assert Product(s) == Product(init) * x;
      hide Product;
      ProductOfPermutation(init, rest);
      ProductInsert(t[..k], x, t[k + 1..]);
    }
  }

  /** 1, ..., n. */
  function Firsts(n: nat): (s: seq<nat>)
    ensures |s| == n
  {
    seq(n, i requires 0 <= i < n => i + 1)
  }

  /** The remainders of a, 2a, ..., na. */
  function Multiples(a: nat, n: nat, p: nat): (s: seq<nat>)
    requires p > 0
    ensures |s| == n
  {
    seq(n, i requires 0 <= i < n => (a * (i + 1)) % p)
  }

  lemma MultipleNotZero(a: nat, i: nat, p: nat)
    requires IsPrime(p) && a % p != 0 && 0 < i < p
    ensures 0 < (a * i) % p < p
  {
    if (a * i) % p == 0 {
      NoZeroDivisor(a, i, p);
    }
  }

  lemma MultiplesDiffer(a: nat, i: nat, j: nat, p: nat)
    requires IsPrime(p) && a % p != 0 && 0 < i < j < p
    ensures (a * i) % p != (a * j) % p
  {
    if (a * i) % p == (a * j) % p {
      assert a * j - a * i == a * (j - i);
      ProductMonotone(i, j, a);
      DifferenceVanishes(a * j, a * i, p);
      NoZeroDivisor(a, j - i, p);
    }
  }

  /** Multiplication by `a` only rearranges the remainders other than zero. */
  lemma MultiplesRearrange(a: nat, p: nat)
    requires IsPrime(p) && a % p != 0
    ensures multiset(Multiples(a, p - 1, p)) == multiset(Firsts(p - 1))
  {
    var q, f := Multiples(a, p - 1, p), Firsts(p - 1);
    forall i | 0 <= i < p - 1 ensures 0 < q[i] < p {
      MultipleNotZero(a, i + 1, p);
    }
    var from := seq(p - 1, i requires 0 <= i < p - 1 => q[i] - 1);
    forall i, j | 0 <= i < j < p - 1 ensures from[i] != from[j] {
      MultiplesDiffer(a, i + 1, j + 1, p);
    }
    RearrangedIsPermutation(q, f, from);
  }

  lemma SameRemainder(x: nat, y: nat, z: nat, p: nat)
    requires p > 0 && x % p == y % p
    ensures (x * z) % p == (y * z) % p
  {
    RemainderOfProduct(x, z, p);
    RemainderOfProduct(y, z, p);
  }

  lemma ZeroTimes(x: nat, p: nat)
    requires p > 0
    ensures (0 * x) % p == 0
  {
    DivisionIsUnique(0, 0, 0, p);
  }

  lemma RemainderIdempotent(x: nat, p: nat)
    requires p > 0
    ensures (x % p) % p == x % p
  {
    DivisionIsUnique(x % p, 0, x % p, p);
  }

  lemma {:induction false} ProductOfMultiples(a: nat, n: nat, p: nat)
    requires p > 0
    ensures Product(Multiples(a, n, p)) % p == (Pow(a, n) * Product(Firsts(n))) % p
  {
    if n > 0 {
      var m, f, last := Product(Multiples(a, n - 1, p)), Product(Firsts(n - 1)), (a * n) % p;
      ProductOfMultiples(a, n - 1, p);
      assert Multiples(a, n, p)[..n - 1] == Multiples(a, n - 1, p);
      assert Firsts(n)[..n - 1] == Firsts(n - 1);
      SameRemainder(m, Pow(a, n - 1) * f, last, p);
      RemainderIdempotent(a * n, p);
      SameRemainder(last, a * n, Pow(a, n - 1) * f, p);
      assert (Pow(a, n - 1) * f) * last == last * (Pow(a, n - 1) * f);
      Interchange(a, n, Pow(a, n - 1), f);
    }
  }

  lemma {:induction false} FactorialNotZero(n: nat, p: nat)
    requires IsPrime(p) && n < p
    ensures Product(Firsts(n)) % p != 0
  {
    if n > 0 {
      FactorialNotZero(n - 1, p);
      assert Firsts(n)[..n - 1] == Firsts(n - 1);
      if Product(Firsts(n)) % p == 0 {
        NoZeroDivisor(Product(Firsts(n - 1)), n, p);
      }
    } else {
      DivisionIsUnique(1, 0, 1, p);
    }
  }

  /** Fermat's little theorem. */
  lemma Fermat(a: nat, p: nat)
    requires IsPrime(p) && a % p != 0
    ensures PowMod(a, p - 1, p) == 1
  {
    hide Pow, Product;
    var f, t := Product(Firsts(p - 1)), PowMod(a, p - 1, p);
    MultiplesRearrange(a, p);
    ProductOfPermutation(Multiples(a, p - 1, p), Firsts(p - 1));
    ProductOfMultiples(a, p - 1, p);
    FactorialNotZero(p - 1, p);
    RemainderIdempotent(Pow(a, p - 1), p);
    SameRemainder(t, Pow(a, p - 1), f, p);
    assert (t * f) % p == f % p;
    ZeroTimes(f, p);
    if t > 1 {
      assert t * f - f == f * (t - 1);
      assert t * f >= f;
      DifferenceVanishes(t * f, f, p);
      NoZeroDivisor(f, t - 1, p);
    }
  }

  // ------------------------------------------------------------- squares

  predicate IsSquare(y: nat, p: nat)
    requires p > 0
  {
    exists x :: 0 <= x < p && (x * x) % p == y
  }

  /** p = 2q + 1 with q odd. */
  predicate SafeForm(p: nat, q: nat) { p == 2 * q + 1 && q % 2 == 1 }

  lemma {:induction false} PowProduct(a: nat, b: nat, e: nat)
    ensures Pow(a * b, e) == Pow(a, e) * Pow(b, e)
  {
    if e > 0 {
      PowProduct(a, b, e - 1);
      Interchange(a, b, Pow(a, e - 1), Pow(b, e - 1));
    }
  }

  lemma PowModProduct(a: nat, b: nat, e: nat, p: nat)
    requires p > 0
    ensures PowMod((a * b) % p, e, p) == (PowMod(a, e, p) * PowMod(b, e, p)) % p
  {
    PowOfRemainder(a * b, e, p);
    PowProduct(a, b, e);
    RemainderOfProduct(Pow(a, e), Pow(b, e), p);
  }

  lemma PowTwo(x: nat)
    ensures Pow(x, 2) == x * x
  {
    assert Pow(x, 1) == x * Pow(x, 0) == x;
  }

  /** A key that has the order is the square of its own power (q + 1) / 2. No primality is needed. */
  lemma OrderGivesSquare(y: nat, q: nat, p: nat)
    requires SafeForm(p, q) && y < p && HasOrder(y, q, p)
    ensures IsSquare(y, p)
  {
    hide Pow;
    var h := (q + 1) / 2;
    var r, x := Pow(y, h), PowMod(y, h, p);
    PowSum(y, h, h);
    assert h + h == q + 1;
    PowSum(y, q, 1);
    assert Pow(y, 1) == y by {
      PowOne(y);
    }
    RemainderOfProduct(r, r, p);
    RemainderIdempotent(Pow(y, q), p);
    DivisionIsUnique(1, 0, 1, p);
    SameRemainder(Pow(y, q), 1, y, p);
    DivisionIsUnique(y, 0, y, p);
    assert (x * x) % p == y;
  }

  lemma PowOne(y: nat)
    ensures Pow(y, 1) == y
  {
    assert Pow(y, 0) == 1;
  }

  lemma SquareGivesOrder(y: nat, q: nat, p: nat)
    requires IsPrime(p) && SafeForm(p, q) && 1 <= y < p && IsSquare(y, p)
    ensures HasOrder(y, q, p)
  {
    hide Pow;
    var x :| 0 <= x < p && (x * x) % p == y;
    ZeroTimes(x, p);
    DivisionIsUnique(x, 0, x, p);
    Fermat(x, p);
    PowTwo(x);
    PowPow(x, 2, q);
    PowOfRemainder(x * x, q, p);
  }

  /** Exactly the squares have the order that the test asks for. */
  lemma OrderExactlyIfSquare(y: nat, q: nat, p: nat)
    requires IsPrime(p) && SafeForm(p, q) && 1 <= y < p
    ensures HasOrder(y, q, p) <==> IsSquare(y, p)
  {
    hide IsSquare, HasOrder;
    if HasOrder(y, q, p) {
      OrderGivesSquare(y, q, p);
    }
    if IsSquare(y, p) {
      SquareGivesOrder(y, q, p);
    }
  }

  /** The code accepts just what the comments and messages describe, range and order, on exactly the invalid keys and
      the squares other than 1. */
  lemma DocumentedTestExactly(y: nat, q: nat, p: nat)
    requires IsPrime(p) && SafeForm(p, q)
    ensures (IsValidPublicKey(y, p) <==> InDocumentedRange(y, p) && HasOrder(y, q, p)) <==>
            (!IsValidPublicKey(y, p) || (IsSquare(y, p) && y != 1))
  {
    hide IsSquare, HasOrder;
    if IsValidPublicKey(y, p) {
      OrderExactlyIfSquare(y, q, p);
      WrongOrderIsAccepted(q);
    }
  }

  // -------------------------------------------------------------- about half

  /** -t modulo p. */
  lemma Negated(t: nat, p: nat)
    requires p > 1 && t < p
    ensures ((p - 1) * t) % p == if t == 0 then 0 else p - t
  {
    if t == 0 {
      ZeroTimes(p - 1, p);
    } else {
      assert (p - 1) * t == (t - 1) * p + (p - t);
      DivisionIsUnique((p - 1) * t, t - 1, p - t, p);
    }
  }

  /** The power of the opposite key. */
  lemma OppositePower(y: nat, q: nat, p: nat)
    requires SafeForm(p, q) && 1 <= y < p
    ensures PowMod(p - y, q, p) == (if PowMod(y, q, p) == 0 then 0 else p - PowMod(y, q, p))
  {
    hide Pow;
    Negated(y, p);
    PowModProduct(p - 1, y, q, p);
    PowerOfLast(q, p);
    hide PowMod;
    Negated(PowMod(y, q, p), p);
  }

  /** A key and its opposite never both have the order. */
  lemma OppositesDiffer(y: nat, q: nat, p: nat)
    requires SafeForm(p, q) && 1 <= y < p
    ensures !(HasOrder(y, q, p) && HasOrder(p - y, q, p))
  {
    hide Pow, PowMod;
    OppositePower(y, q, p);
  }

  /** The power is 1 or -1. */
  lemma PowerIsOneOrLast(y: nat, q: nat, p: nat)
    requires IsPrime(p) && SafeForm(p, q) && 1 <= y < p
    ensures PowMod(y, q, p) == 1 || PowMod(y, q, p) == p - 1
  {
    hide Pow;
    var t := PowMod(y, q, p);
    DivisionIsUnique(y, 0, y, p);
    Fermat(y, p);
    PowSum(y, q, q);
    RemainderOfProduct(Pow(y, q), Pow(y, q), p);
    assert (t * t) % p == 1;
    DivisionIsUnique(1, 0, 1, p);
    ZeroTimes(t, p);
    if 1 < t < p - 1 {
      assert t * t - 1 == (t + 1) * (t - 1);
      DifferenceVanishes(t * t, 1, p);
      NoZeroDivisor(t + 1, t - 1, p);
      DivisionIsUnique(t + 1, 0, t + 1, p);
    }
  }

  /** Of a key and its opposite, exactly one has the order. */
  lemma OneOfOpposites(y: nat, q: nat, p: nat)
    requires IsPrime(p) && SafeForm(p, q) && 1 <= y < p
    ensures HasOrder(p - y, q, p) <==> !HasOrder(y, q, p)
  {
    hide Pow, PowMod;
    OppositePower(y, q, p);
    PowerIsOneOrLast(y, q, p);
  }

  /** How many of the keys from `lo` to `hi - 1` have the order. */
  function Ordered(lo: nat, hi: nat, q: nat, p: nat): nat
    requires p > 0
    decreases hi
  {
    if lo >= hi then 0 else Ordered(lo, hi - 1, q, p) + (if HasOrder(hi - 1, q, p) then 1 else 0)
  }

  lemma {:induction false} OrderedConcat(lo: nat, mid: nat, hi: nat, q: nat, p: nat)
    requires p > 0 && lo <= mid <= hi
    ensures Ordered(lo, hi, q, p) == Ordered(lo, mid, q, p) + Ordered(mid, hi, q, p)
    decreases hi
  {
    hide HasOrder;
    if mid < hi {
      OrderedConcat(lo, mid, hi - 1, q, p);
    }
  }

  lemma {:induction false} OrderedPairs(n: nat, q: nat, p: nat)
    requires IsPrime(p) && SafeForm(p, q) && n <= q
    ensures Ordered(1, n + 1, q, p) + Ordered(p - n, p, q, p) == n
  {
    hide HasOrder;
    if n > 0 {
      OrderedPairs(n - 1, q, p);
      OneOfOpposites(n, q, p);
      OrderedConcat(p - n, p - n + 1, p, q, p);
      assert Ordered(p - n, p - n, q, p) == 0;
    }
  }

  /** Exactly q of the 2q keys that the code accepts have the order: on random data the test fails in half of the
      cases. */
  lemma HalfOfKeysHaveOrder(q: nat, p: nat)
    requires IsPrime(p) && SafeForm(p, q)
    ensures Ordered(1, p, q, p) == q && p - 1 == 2 * q
  {
    hide Ordered;
    OrderedPairs(q, q, p);
    OrderedConcat(1, q + 1, p, q, p);
  }

  // ---------------------------------------------------------- honest keys

  /** If the generator has the order, every honest key has it. No primality is needed. */
  lemma HonestKeyInheritsOrder(e: nat, q: nat, p: nat)
    requires p > 1 && HasOrder(G, q, p)
    ensures HasOrder(PowMod(G, e, p), q, p)
  {
    hide Pow;
    PowOfRemainder(Pow(G, e), q, p);
    PowPow(G, e, q);
    PowPow(G, q, e);
    assert e * q == q * e;
    PowOfRemainder(Pow(G, q), e, p);
    PowerOfOne(e);
    DivisionIsUnique(1, 0, 1, p);
  }

  /** An honest key has the order if and only if its exponent is even or the generator has it. */
  lemma HonestKeyOrderExactly(e: nat, q: nat, p: nat)
    requires IsPrime(p) && SafeForm(p, q)
    ensures HasOrder(PowMod(G, e, p), q, p) <==> e % 2 == 0 || HasOrder(G, q, p)
  {
    hide Pow;
    assert p >= 3;
    if HasOrder(G, q, p) {
      HonestKeyInheritsOrder(e, q, p);
    } else {
      PowerIsOneOrLast(G, q, p);
      PowOfRemainder(Pow(G, e), q, p);
      PowPow(G, e, q);
      PowPow(G, q, e);
      assert e * q == q * e;
      PowOfRemainder(Pow(G, q), e, p);
      PowerOfLast(e, p);
    }
  }
}
