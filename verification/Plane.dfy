/** Rectangular planes of samples stored row by row, and the three ways in which the rotations rearrange them. */
module Plane {
  import opened Arithmetic
  import opened Permutation

  lemma CellIndex(w: nat, h: nat, r: nat, c: nat)
    requires r < h && c < w
    ensures r * w + c < h * w
    ensures (r * w + c) / w == r && (r * w + c) % w == c
  {
    assert (r + 1) * w <= h * w;
    DivisionIsUnique(r * w + c, r, c, w);
  }

  lemma IndexCell(w: nat, h: nat, i: nat)
    requires i < h * w
    ensures w > 0 && i / w < h && i % w < w && i == (i / w) * w + i % w
  {
    assert w == 0 ==> h * w == 0;
    ProductMonotone(h, i / w, w);
  }

  /** The sample in row `r` and column `c` of a plane `w` wide and `h` high. */
  function At<T>(p: seq<T>, w: nat, h: nat, r: nat, c: nat): T
    requires |p| == h * w && r < h && c < w
  {
    CellIndex(w, h, r, c);
    p[r * w + c]
  }

  lemma SameCells<T>(p: seq<T>, q: seq<T>, w: nat, h: nat)
    requires |p| == |q| == h * w
    requires forall r, c :: 0 <= r < h && 0 <= c < w ==> At(p, w, h, r, c) == At(q, w, h, r, c)
    ensures p == q
  {
    forall i | 0 <= i < |p| ensures p[i] == q[i] {
      IndexCell(w, h, i);
      assert At(p, w, h, i / w, i % w) == At(q, w, h, i / w, i % w);
    }
  }

  // ------------------------------------------------------- three rearrangements

  /** A quarter turn clockwise; the result is `h` wide and `w` high. */
  function Turn<T>(p: seq<T>, w: nat, h: nat): (q: seq<T>)
    requires |p| == h * w
    ensures |q| == w * h
  {
    seq(w * h, i requires 0 <= i < w * h => (IndexCell(h, w, i); At(p, w, h, h - 1 - i % h, i / h)))
  }

  /** Half a turn: the samples in reverse order. */
  function Flip<T>(p: seq<T>): (q: seq<T>)
    ensures |q| == |p|
  {
    seq(|p|, i requires 0 <= i < |p| => p[|p| - 1 - i])
  }

  /** Rows become columns: the reflection in the main diagonal; the result is `h` wide and `w` high. */
  function Transpose<T>(p: seq<T>, w: nat, h: nat): (q: seq<T>)
    requires |p| == h * w
    ensures |q| == w * h
  {
    seq(w * h, i requires 0 <= i < w * h => (IndexCell(h, w, i); At(p, w, h, i % h, i / h)))
  }

  lemma TurnAt<T>(p: seq<T>, w: nat, h: nat, r: nat, c: nat)
    requires |p| == h * w && r < w && c < h
    ensures At(Turn(p, w, h), h, w, r, c) == At(p, w, h, h - 1 - c, r)
  {
    CellIndex(h, w, r, c);
  }

  lemma TransposeAt<T>(p: seq<T>, w: nat, h: nat, r: nat, c: nat)
    requires |p| == h * w && r < w && c < h
    ensures At(Transpose(p, w, h), h, w, r, c) == At(p, w, h, c, r)
  {
    CellIndex(h, w, r, c);
  }

  lemma FlipAt<T>(p: seq<T>, w: nat, h: nat, r: nat, c: nat)
    requires |p| == h * w && r < h && c < w
    ensures At(Flip(p), w, h, r, c) == At(p, w, h, h - 1 - r, w - 1 - c)
  {
    CellIndex(w, h, r, c);
    CellIndex(w, h, h - 1 - r, w - 1 - c);
    assert (h - 1 - r) * w + (w - 1 - c) == h * w - 1 - (r * w + c) by {
      assert (h - 1 - r) * w == h * w - w - r * w;
    }
  }

  // ------------------------------------------------------------------- algebra

  lemma TurnTurnIsFlip<T>(p: seq<T>, w: nat, h: nat)
    requires |p| == h * w
    ensures Turn(Turn(p, w, h), h, w) == Flip(p)
  {
    var t := Turn(p, w, h);
    forall r, c | 0 <= r < h && 0 <= c < w ensures At(Turn(t, h, w), w, h, r, c) == At(Flip(p), w, h, r, c) {
      TurnAt(t, h, w, r, c);
      TurnAt(p, w, h, w - 1 - c, r);
      FlipAt(p, w, h, r, c);
    }
    SameCells(Turn(t, h, w), Flip(p), w, h);
  }

  lemma FlipFlip<T>(p: seq<T>)
    ensures Flip(Flip(p)) == p
  {
  }

  /** The reflection in the other diagonal, which `rotate270` computes: transpose, then half a turn. */
  function AntiTranspose<T>(p: seq<T>, w: nat, h: nat): (q: seq<T>)
    requires |p| == h * w
    ensures |q| == w * h
  {
    Flip(Transpose(p, w, h))
  }

  lemma AntiTransposeAt<T>(p: seq<T>, w: nat, h: nat, r: nat, c: nat)
    requires |p| == h * w && r < w && c < h
    ensures At(AntiTranspose(p, w, h), h, w, r, c) == At(p, w, h, h - 1 - c, w - 1 - r)
  {
    FlipAt(Transpose(p, w, h), h, w, r, c);
    TransposeAt(p, w, h, w - 1 - r, h - 1 - c);
  }

  lemma AntiTransposeTwice<T>(p: seq<T>, w: nat, h: nat)
    requires |p| == h * w
    ensures AntiTranspose(AntiTranspose(p, w, h), h, w) == p
  {
    var a := AntiTranspose(p, w, h);
    forall r, c | 0 <= r < h && 0 <= c < w ensures At(AntiTranspose(a, h, w), w, h, r, c) == At(p, w, h, r, c) {
      AntiTransposeAt(a, h, w, r, c);
      AntiTransposeAt(p, w, h, w - 1 - c, h - 1 - r);
    }
    SameCells(AntiTranspose(a, h, w), p, w, h);
  }

  /** The plane with its rows in reverse order. */
  function ReverseRows<T>(p: seq<T>, w: nat, h: nat): (q: seq<T>)
    requires |p| == h * w
    ensures |q| == h * w
  {
    seq(h * w, i requires 0 <= i < h * w => (IndexCell(w, h, i); At(p, w, h, h - 1 - i / w, i % w)))
  }

  lemma ReverseRowsAt<T>(p: seq<T>, w: nat, h: nat, r: nat, c: nat)
    requires |p| == h * w && r < h && c < w
    ensures At(ReverseRows(p, w, h), w, h, r, c) == At(p, w, h, h - 1 - r, c)
  {
    CellIndex(w, h, r, c);
  }

  lemma AntiTransposeIsTurnReversed<T>(p: seq<T>, w: nat, h: nat)
    requires |p| == h * w
    ensures AntiTranspose(p, w, h) == ReverseRows(Turn(p, w, h), h, w)
  {
    var t := Turn(p, w, h);
    forall r, c | 0 <= r < w && 0 <= c < h
      ensures At(AntiTranspose(p, w, h), h, w, r, c) == At(ReverseRows(t, h, w), h, w, r, c)
    {
      AntiTransposeAt(p, w, h, r, c);
      ReverseRowsAt(t, h, w, r, c);
      TurnAt(p, w, h, w - 1 - r, c);
    }
    SameCells(AntiTranspose(p, w, h), ReverseRows(t, h, w), h, w);
  }

  /** Every row reads the same from both ends. */
  predicate RowsSymmetric<T(==)>(p: seq<T>, w: nat, h: nat)
    requires |p| == h * w
  {
    forall r, c :: 0 <= r < h && 0 <= c < w ==> At(p, w, h, r, c) == At(p, w, h, r, w - 1 - c)
  }

  /** Every column reads the same from both ends. */
  predicate ColumnsSymmetric<T(==)>(p: seq<T>, w: nat, h: nat)
    requires |p| == h * w
  {
    forall r, c :: 0 <= r < h && 0 <= c < w ==> At(p, w, h, r, c) == At(p, w, h, h - 1 - r, c)
  }

  lemma AntiTransposeOfTurnAt<T>(p: seq<T>, w: nat, h: nat, r: nat, c: nat)
    requires |p| == h * w && r < h && c < w
    ensures At(AntiTranspose(Turn(p, w, h), h, w), w, h, r, c) == At(p, w, h, r, w - 1 - c)
  {
    AntiTransposeAt(Turn(p, w, h), h, w, r, c);
    TurnAt(p, w, h, w - 1 - c, h - 1 - r);
  }

  /** The anti-diagonal reflection undoes a quarter turn exactly on planes whose rows are symmetric. */
  lemma AntiTransposeUndoesTurn<T>(p: seq<T>, w: nat, h: nat)
    requires |p| == h * w
    ensures AntiTranspose(Turn(p, w, h), h, w) == p <==> RowsSymmetric(p, w, h)
  {
    var q := AntiTranspose(Turn(p, w, h), h, w);
    forall r, c | 0 <= r < h && 0 <= c < w ensures At(q, w, h, r, c) == At(p, w, h, r, w - 1 - c) {
      AntiTransposeOfTurnAt(p, w, h, r, c);
    }
    if RowsSymmetric(p, w, h) {
      SameCells(q, p, w, h);
    }
  }

  /** It is the quarter turn to the left exactly on planes whose columns are symmetric. */
  lemma AntiTransposeIsThreeTurns<T>(p: seq<T>, w: nat, h: nat)
    requires |p| == h * w
    ensures AntiTranspose(p, w, h) == Turn(Flip(p), w, h) <==> ColumnsSymmetric(p, w, h)
  {
    var a, t := AntiTranspose(p, w, h), Turn(Flip(p), w, h);
    forall r, c | 0 <= r < w && 0 <= c < h
      ensures At(a, h, w, r, c) == At(p, w, h, h - 1 - c, w - 1 - r) && At(t, h, w, r, c) == At(p, w, h, c, w - 1 - r)
    {
      AntiTransposeAt(p, w, h, r, c);
      TurnAt(Flip(p), w, h, r, c);
      FlipAt(p, w, h, h - 1 - c, r);
    }
    if ColumnsSymmetric(p, w, h) {
      forall r, c | 0 <= r < w && 0 <= c < h ensures At(a, h, w, r, c) == At(t, h, w, r, c) {
        assert At(p, w, h, c, w - 1 - r) == At(p, w, h, h - 1 - c, w - 1 - r);
      }
      SameCells(a, t, h, w);
    }
    if a == t {
      forall r, c | 0 <= r < h && 0 <= c < w ensures At(p, w, h, r, c) == At(p, w, h, h - 1 - r, c) {
        assert At(a, h, w, w - 1 - c, r) == At(t, h, w, w - 1 - c, r);
      }
    }
  }

  // -------------------------------------------------------------- permutations

  /** The position from which sample `i` of the turned plane comes. */
  function TurnedFrom(w: nat, h: nat, i: nat): (k: nat)
    requires i < w * h
    ensures k < h * w
  {
    IndexCell(h, w, i);
    CellIndex(w, h, h - 1 - i % h, i / h);
    (h - 1 - i % h) * w + i / h
  }

  lemma TurnedFromCell(w: nat, h: nat, i: nat)
    requires i < w * h
    ensures w > 0 && h > 0 && TurnedFrom(w, h, i) / w == h - 1 - i % h && TurnedFrom(w, h, i) % w == i / h
    ensures i == (i / h) * h + i % h
  {
    IndexCell(h, w, i);
    CellIndex(w, h, h - 1 - i % h, i / h);
  }

  lemma TurnedFromInjective(w: nat, h: nat, i: nat, j: nat)
    requires i < w * h && j < w * h && TurnedFrom(w, h, i) == TurnedFrom(w, h, j)
    ensures i == j
  {
    hide TurnedFrom;
    TurnedFromCell(w, h, i);
    TurnedFromCell(w, h, j);
    assert i / h == j / h && i % h == j % h;
  }

  lemma TurnPermutes<T>(p: seq<T>, w: nat, h: nat)
    requires |p| == h * w
    ensures multiset(Turn(p, w, h)) == multiset(p)
  {
    hide TurnedFrom;
    var q := Turn(p, w, h);
    var from := seq(|q|, i requires 0 <= i < |q| => TurnedFrom(w, h, i));
    forall i | 0 <= i < |q| ensures q[i] == p[from[i]] {
      TurnSample(p, w, h, i);
    }
    forall i, j | 0 <= i < j < |q| ensures from[i] != from[j] {
      if from[i] == from[j] {
        TurnedFromInjective(w, h, i, j);
      }
    }
    assert |q| == |p|;
    RearrangedIsPermutation(q, p, from);
  }

  lemma TurnSample<T>(p: seq<T>, w: nat, h: nat, i: nat)
    requires |p| == h * w && i < w * h
    ensures Turn(p, w, h)[i] == p[TurnedFrom(w, h, i)]
  {
  }

  function RowReversedFrom(w: nat, h: nat, i: nat): (k: nat)
    requires i < h * w
    ensures k < h * w
  {
    IndexCell(w, h, i);
    CellIndex(w, h, h - 1 - i / w, i % w);
    (h - 1 - i / w) * w + i % w
  }

  lemma RowReversedFromCell(w: nat, h: nat, i: nat)
    requires i < h * w
    ensures w > 0 && RowReversedFrom(w, h, i) / w == h - 1 - i / w && RowReversedFrom(w, h, i) % w == i % w
    ensures i == (i / w) * w + i % w
  {
    IndexCell(w, h, i);
    CellIndex(w, h, h - 1 - i / w, i % w);
  }

  lemma RowReversedFromInjective(w: nat, h: nat, i: nat, j: nat)
    requires i < h * w && j < h * w && RowReversedFrom(w, h, i) == RowReversedFrom(w, h, j)
    ensures i == j
  {
    hide RowReversedFrom;
    RowReversedFromCell(w, h, i);
    RowReversedFromCell(w, h, j);
    assert i / w == j / w;
  }

  lemma ReverseRowsSample<T>(p: seq<T>, w: nat, h: nat, i: nat)
    requires |p| == h * w && i < h * w
    ensures ReverseRows(p, w, h)[i] == p[RowReversedFrom(w, h, i)]
  {
  }

  lemma ReverseRowsPermutes<T>(p: seq<T>, w: nat, h: nat)
    requires |p| == h * w
    ensures multiset(ReverseRows(p, w, h)) == multiset(p)
  {
    hide RowReversedFrom;
    var q := ReverseRows(p, w, h);
    var from := seq(|q|, i requires 0 <= i < |q| => RowReversedFrom(w, h, i));
    forall i | 0 <= i < |q| ensures q[i] == p[from[i]] {
      ReverseRowsSample(p, w, h, i);
    }
    forall i, j | 0 <= i < j < |q| ensures from[i] != from[j] {
      if from[i] == from[j] {
        RowReversedFromInjective(w, h, i, j);
      }
    }
    RearrangedIsPermutation(q, p, from);
  }

  lemma FlipPermutes<T>(p: seq<T>)
    ensures multiset(Flip(p)) == multiset(p)
  {
    var from: seq<nat> := seq(|p|, i requires 0 <= i < |p| => |p| - 1 - i);
    RearrangedIsPermutation(Flip(p), p, from);
  }

  lemma AntiTransposePermutes<T>(p: seq<T>, w: nat, h: nat)
    requires |p| == h * w
    ensures multiset(AntiTranspose(p, w, h)) == multiset(p)
  {
    hide Turn, AntiTranspose, ReverseRows;
    AntiTransposeIsTurnReversed(p, w, h);
    TurnPermutes(p, w, h);
    ReverseRowsPermutes(Turn(p, w, h), h, w);
  }

  // ---------------------------------------------------------- sample by sample

  function Map<T, U>(f: T -> U, p: seq<T>): (q: seq<U>)
    ensures |q| == |p|
  {
    seq(|p|, i requires 0 <= i < |p| => f(p[i]))
  }

  lemma TurnMap<T, U>(f: T -> U, p: seq<T>, w: nat, h: nat)
    requires |p| == h * w
    ensures Turn(Map(f, p), w, h) == Map(f, Turn(p, w, h))
  {
    hide Turn, TurnedFrom;
    forall i | 0 <= i < w * h ensures Turn(Map(f, p), w, h)[i] == Map(f, Turn(p, w, h))[i] {
      TurnSample(Map(f, p), w, h, i);
      TurnSample(p, w, h, i);
    }
  }

  lemma FlipMap<T, U>(f: T -> U, p: seq<T>)
    ensures Flip(Map(f, p)) == Map(f, Flip(p))
  {
  }

  lemma ReverseRowsMap<T, U>(f: T -> U, p: seq<T>, w: nat, h: nat)
    requires |p| == h * w
    ensures ReverseRows(Map(f, p), w, h) == Map(f, ReverseRows(p, w, h))
  {
    hide ReverseRows, RowReversedFrom;
    forall i | 0 <= i < h * w ensures ReverseRows(Map(f, p), w, h)[i] == Map(f, ReverseRows(p, w, h))[i] {
      ReverseRowsSample(Map(f, p), w, h, i);
      ReverseRowsSample(p, w, h, i);
    }
  }

  lemma AntiTransposeMap<T, U>(f: T -> U, p: seq<T>, w: nat, h: nat)
    requires |p| == h * w
    ensures AntiTranspose(Map(f, p), w, h) == Map(f, AntiTranspose(p, w, h))
  {
    hide AntiTranspose, Turn, ReverseRows;
    AntiTransposeIsTurnReversed(Map(f, p), w, h);
    AntiTransposeIsTurnReversed(p, w, h);
    TurnMap(f, p, w, h);
    ReverseRowsMap(f, Turn(p, w, h), h, w);
  }
}
