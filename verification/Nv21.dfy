/** The NV21 rotations of `YUV420Utils.java`: a luma plane, then a plane of (V, U) pairs of half the width and
    height. */
module Nv21 {
  import opened Arithmetic
  import opened Bytes
  import opened Plane

  predicate Even(w: nat, h: nat) { w % 2 == 0 && h % 2 == 0 }

  /** `width * height * 3 / 2` */
  function FrameSize(w: nat, h: nat): nat { w * h * 3 / 2 }

  lemma FrameSizeParts(w: nat, h: nat)
    requires Even(w, h)
    ensures FrameSize(w, h) == FrameSize(h, w) == h * w + 2 * ((h / 2) * (w / 2))
    ensures h * w == w * h == 4 * ((h / 2) * (w / 2))
  {
    var a, b := w / 2, h / 2;
    assert w * h == (2 * a) * (2 * b) == 4 * (a * b);
    assert h * w == w * h && b * a == a * b;
  }

  ghost predicate IsFrame(d: Bytes, w: nat, h: nat) { Even(w, h) && |d| == FrameSize(w, h) }

  function Luma(d: Bytes, w: nat, h: nat): (p: Bytes)
    requires IsFrame(d, w, h)
    ensures |p| == h * w
  {
    FrameSizeParts(w, h);
    d[..h * w]
  }

  function Chroma(d: Bytes, w: nat, h: nat): (p: seq<(byte, byte)>)
    requires IsFrame(d, w, h)
    ensures |p| == (h / 2) * (w / 2)
  {
    FrameSizeParts(w, h);
    PairsFrom(d, h * w, (h / 2) * (w / 2))
  }

  function Interleave(vu: seq<(byte, byte)>): (s: Bytes)
    ensures |s| == 2 * |vu|
  {
    seq(2 * |vu|, i requires 0 <= i < 2 * |vu| => if i % 2 == 0 then vu[i / 2].0 else vu[i / 2].1)
  }

  function Assemble(y: Bytes, vu: seq<(byte, byte)>): Bytes { y + Interleave(vu) }

  /** The pairs stored from position `n` of a buffer on. */
  function PairsFrom(d: Bytes, n: nat, m: nat): (p: seq<(byte, byte)>)
    requires |d| == n + 2 * m
    ensures |p| == m
  {
    seq(m, k requires 0 <= k < m => (d[n + 2 * k], d[n + 2 * k + 1]))
  }

  lemma InterleavedPair(vu: seq<(byte, byte)>, k: nat)
    requires k < |vu|
    ensures Interleave(vu)[2 * k] == vu[k].0 && Interleave(vu)[2 * k + 1] == vu[k].1
  {
    assert (2 * k) / 2 == k && (2 * k + 1) / 2 == k;
  }

  lemma InterleaveRoundTrip(y: Bytes, vu: seq<(byte, byte)>)
    ensures PairsFrom(Assemble(y, vu), |y|, |vu|) == vu
  {
    hide Interleave;
    var d := Assemble(y, vu);
    forall k | 0 <= k < |vu| ensures PairsFrom(d, |y|, |vu|)[k] == vu[k] {
      InterleavedPair(vu, k);
      assert d[|y| + 2 * k] == Interleave(vu)[2 * k];
      assert d[|y| + 2 * k + 1] == Interleave(vu)[2 * k + 1];
    }
  }

  lemma PairsRoundTrip(d: Bytes, n: nat, m: nat)
    requires |d| == n + 2 * m
    ensures Assemble(d[..n], PairsFrom(d, n, m)) == d
  {
    var s := Interleave(PairsFrom(d, n, m));
    forall i | 0 <= i < 2 * m ensures s[i] == d[n + i] {
      assert i == 2 * (i / 2) || i == 2 * (i / 2) + 1;
    }
  }

  lemma AssembledParts(y: Bytes, vu: seq<(byte, byte)>, w: nat, h: nat)
    requires Even(w, h) && |y| == h * w && |vu| == (h / 2) * (w / 2)
    ensures IsFrame(Assemble(y, vu), w, h)
    ensures Luma(Assemble(y, vu), w, h) == y && Chroma(Assemble(y, vu), w, h) == vu
  {
    hide PairsFrom;
    FrameSizeParts(w, h);
    InterleaveRoundTrip(y, vu);
  }

  lemma PartsAssemble(d: Bytes, w: nat, h: nat)
    requires IsFrame(d, w, h)
    ensures Assemble(Luma(d, w, h), Chroma(d, w, h)) == d
  {
    hide PairsFrom, Assemble;
    FrameSizeParts(w, h);
    PairsRoundTrip(d, h * w, (h / 2) * (w / 2));
  }

  // ------------------------------------------------------------- the rotations

  /** `rotate90`: both planes make a quarter turn; the frame becomes `h` wide and `w` high. */
  function Rotate90(d: Bytes, w: nat, h: nat): (r: Bytes)
    requires IsFrame(d, w, h)
    ensures IsFrame(r, h, w)
    ensures Luma(r, h, w) == Turn(Luma(d, w, h), w, h) && Chroma(r, h, w) == Turn(Chroma(d, w, h), w / 2, h / 2)
  {
    AssembledParts(Turn(Luma(d, w, h), w, h), Turn(Chroma(d, w, h), w / 2, h / 2), h, w);
    Assemble(Turn(Luma(d, w, h), w, h), Turn(Chroma(d, w, h), w / 2, h / 2))
  }

  function Rotate180(d: Bytes, w: nat, h: nat): (r: Bytes)
    requires IsFrame(d, w, h)
    ensures IsFrame(r, w, h)
    ensures Luma(r, w, h) == Flip(Luma(d, w, h)) && Chroma(r, w, h) == Flip(Chroma(d, w, h))
  {
    AssembledParts(Flip(Luma(d, w, h)), Flip(Chroma(d, w, h)), w, h);
    Assemble(Flip(Luma(d, w, h)), Flip(Chroma(d, w, h)))
  }

  /** `rotate270` as it is written: both planes are reflected in their other diagonal. */
  function Rotate270(d: Bytes, w: nat, h: nat): (r: Bytes)
    requires IsFrame(d, w, h)
    ensures IsFrame(r, h, w)
    ensures Luma(r, h, w) == AntiTranspose(Luma(d, w, h), w, h)
            && Chroma(r, h, w) == AntiTranspose(Chroma(d, w, h), w / 2, h / 2)
  {
    AssembledParts(AntiTranspose(Luma(d, w, h), w, h), AntiTranspose(Chroma(d, w, h), w / 2, h / 2), h, w);
    Assemble(AntiTranspose(Luma(d, w, h), w, h), AntiTranspose(Chroma(d, w, h), w / 2, h / 2))
  }

  /** A frame is its two planes. */
  lemma SameFrame(d: Bytes, e: Bytes, w: nat, h: nat)
    requires IsFrame(d, w, h) && IsFrame(e, w, h)
    ensures d == e <==> Luma(d, w, h) == Luma(e, w, h) && Chroma(d, w, h) == Chroma(e, w, h)
  {
    hide Assemble, Luma, Chroma;
    PartsAssemble(d, w, h);
    PartsAssemble(e, w, h);
  }

  lemma TwoQuarterTurns(d: Bytes, w: nat, h: nat)
    requires IsFrame(d, w, h)
    ensures Rotate90(Rotate90(d, w, h), h, w) == Rotate180(d, w, h)
  {
    hide Luma, Chroma, Turn, Flip, Rotate90, Rotate180;
    TurnTurnIsFlip(Luma(d, w, h), w, h);
    TurnTurnIsFlip(Chroma(d, w, h), w / 2, h / 2);
    SameFrame(Rotate90(Rotate90(d, w, h), h, w), Rotate180(d, w, h), w, h);
  }

  lemma HalfTurnTwice(d: Bytes, w: nat, h: nat)
    requires IsFrame(d, w, h)
    ensures Rotate180(Rotate180(d, w, h), w, h) == d
  {
    hide Luma, Chroma, Flip, Rotate180;
    FlipFlip(Luma(d, w, h));
    FlipFlip(Chroma(d, w, h));
    SameFrame(Rotate180(Rotate180(d, w, h), w, h), d, w, h);
  }

  lemma FourQuarterTurns(d: Bytes, w: nat, h: nat)
    requires IsFrame(d, w, h)
    ensures Rotate90(Rotate90(Rotate90(Rotate90(d, w, h), h, w), w, h), h, w) == d
  {
    hide Rotate90, Rotate180;
    TwoQuarterTurns(d, w, h);
    TwoQuarterTurns(Rotate180(d, w, h), w, h);
    HalfTurnTwice(d, w, h);
  }

  lemma Rotate270Twice(d: Bytes, w: nat, h: nat)
    requires IsFrame(d, w, h)
    ensures Rotate270(Rotate270(d, w, h), h, w) == d
  {
    hide Luma, Chroma, AntiTranspose, Rotate270;
    AntiTransposeTwice(Luma(d, w, h), w, h);
    AntiTransposeTwice(Chroma(d, w, h), w / 2, h / 2);
    SameFrame(Rotate270(Rotate270(d, w, h), h, w), d, w, h);
  }

  /** `rotate270` is `rotate90` with the rows of both planes in reverse order. */
  lemma Rotate270IsRotate90Reversed(d: Bytes, w: nat, h: nat)
    requires IsFrame(d, w, h)
    ensures var r, s := Rotate270(d, w, h), Rotate90(d, w, h);
            && Luma(r, h, w) == ReverseRows(Luma(s, h, w), h, w)
            && Chroma(r, h, w) == ReverseRows(Chroma(s, h, w), h / 2, w / 2)
  {
    hide Luma, Chroma, AntiTranspose, Turn, ReverseRows, Rotate90, Rotate270;
    AntiTransposeIsTurnReversed(Luma(d, w, h), w, h);
    AntiTransposeIsTurnReversed(Chroma(d, w, h), w / 2, h / 2);
  }

  /** `rotate270` undoes `rotate90`, as a turn by 270 degrees would, exactly on frames with symmetric rows. */
  lemma Rotate270UndoesRotate90(d: Bytes, w: nat, h: nat)
    requires IsFrame(d, w, h)
    ensures Rotate270(Rotate90(d, w, h), h, w) == d
       <==> RowsSymmetric(Luma(d, w, h), w, h) && RowsSymmetric(Chroma(d, w, h), w / 2, h / 2)
  {
    hide Luma, Chroma, AntiTranspose, Turn, RowsSymmetric, Rotate90, Rotate270;
    AntiTransposeUndoesTurn(Luma(d, w, h), w, h);
    AntiTransposeUndoesTurn(Chroma(d, w, h), w / 2, h / 2);
    SameFrame(Rotate270(Rotate90(d, w, h), h, w), d, w, h);
  }

  /** `rotate270` is three quarter turns, as documented, exactly on frames with symmetric columns. */
  lemma Rotate270IsThreeQuarterTurns(d: Bytes, w: nat, h: nat)
    requires IsFrame(d, w, h)
    ensures Rotate270(d, w, h) == Rotate90(Rotate180(d, w, h), w, h)
       <==> ColumnsSymmetric(Luma(d, w, h), w, h) && ColumnsSymmetric(Chroma(d, w, h), w / 2, h / 2)
  {
    hide Luma, Chroma, AntiTranspose, Turn, Flip, ColumnsSymmetric, Rotate90, Rotate180, Rotate270;
    AntiTransposeIsThreeTurns(Luma(d, w, h), w, h);
    AntiTransposeIsThreeTurns(Chroma(d, w, h), w / 2, h / 2);
    SameFrame(Rotate270(d, w, h), Rotate90(Rotate180(d, w, h), w, h), h, w);
  }

  /** A frame of four pixels on which it is neither. */
  lemma Rotate270IsNoRotation()
    ensures var d := [1, 2, 3, 4, 5, 6];
            && IsFrame(d, 2, 2)
            && Rotate270(Rotate90(d, 2, 2), 2, 2) != d
            && Rotate270(d, 2, 2) != Rotate90(Rotate180(d, 2, 2), 2, 2)
  {
    var d: Bytes := [1, 2, 3, 4, 5, 6];
    assert At(Luma(d, 2, 2), 2, 2, 0, 0) == 1 && At(Luma(d, 2, 2), 2, 2, 0, 1) == 2
           && At(Luma(d, 2, 2), 2, 2, 1, 0) == 3;
    Rotate270UndoesRotate90(d, 2, 2);
    Rotate270IsThreeQuarterTurns(d, 2, 2);
  }

  // ------------------------------------------------ permutation and de-interleaving

  /** Each rotation keeps every luma sample, and every (V, U) pair as a pair. */
  lemma RotationsPermute(d: Bytes, w: nat, h: nat)
    requires IsFrame(d, w, h)
    ensures var r := Rotate90(d, w, h);
            multiset(Luma(r, h, w)) == multiset(Luma(d, w, h)) && multiset(Chroma(r, h, w)) == multiset(Chroma(d, w, h))
    ensures var r := Rotate180(d, w, h);
            multiset(Luma(r, w, h)) == multiset(Luma(d, w, h)) && multiset(Chroma(r, w, h)) == multiset(Chroma(d, w, h))
    ensures var r := Rotate270(d, w, h);
            multiset(Luma(r, h, w)) == multiset(Luma(d, w, h)) && multiset(Chroma(r, h, w)) == multiset(Chroma(d, w, h))
  {
    hide Luma, Chroma, AntiTranspose, Turn, Flip, Rotate90, Rotate180, Rotate270;
    TurnPermutes(Luma(d, w, h), w, h);
    TurnPermutes(Chroma(d, w, h), w / 2, h / 2);
    FlipPermutes(Luma(d, w, h));
    FlipPermutes(Chroma(d, w, h));
    AntiTransposePermutes(Luma(d, w, h), w, h);
    AntiTransposePermutes(Chroma(d, w, h), w / 2, h / 2);
  }

  function First(x: (byte, byte)): byte { x.0 }

  function Second(x: (byte, byte)): byte { x.1 }

  /** `nv21ToI420`: luma, then all of U, then all of V. */
  function ToI420(d: Bytes, w: nat, h: nat): Bytes
    requires IsFrame(d, w, h)
  {
    Luma(d, w, h) + Map(Second, Chroma(d, w, h)) + Map(First, Chroma(d, w, h))
  }

  function UPlane(i420: Bytes, w: nat, h: nat): Bytes
    requires IsFrame(i420, w, h)
  {
    FrameSizeParts(w, h);
    i420[h * w..h * w + (h / 2) * (w / 2)]
  }

  function VPlane(i420: Bytes, w: nat, h: nat): Bytes
    requires IsFrame(i420, w, h)
  {
    FrameSizeParts(w, h);
    i420[h * w + (h / 2) * (w / 2)..]
  }

  lemma I420Planes(d: Bytes, w: nat, h: nat)
    requires IsFrame(d, w, h)
    ensures var i := ToI420(d, w, h);
            && IsFrame(i, w, h)
            && UPlane(i, w, h) == Map(Second, Chroma(d, w, h)) && VPlane(i, w, h) == Map(First, Chroma(d, w, h))
  {
    FrameSizeParts(w, h);
  }

  /** Rotating and then de-interleaving is de-interleaving and then rotating the U and V planes, for all three
      rotations. */
  lemma DeinterleaveCommutes(d: Bytes, w: nat, h: nat)
    requires IsFrame(d, w, h)
    ensures var i, r := ToI420(d, w, h), ToI420(Rotate90(d, w, h), h, w);
            && IsFrame(i, w, h) && IsFrame(r, h, w)
            && |UPlane(i, w, h)| == |VPlane(i, w, h)| == (h / 2) * (w / 2)
            && UPlane(r, h, w) == Turn(UPlane(i, w, h), w / 2, h / 2)
            && VPlane(r, h, w) == Turn(VPlane(i, w, h), w / 2, h / 2)
    ensures var i, r := ToI420(d, w, h), ToI420(Rotate180(d, w, h), w, h);
            && IsFrame(i, w, h) && IsFrame(r, w, h)
            && UPlane(r, w, h) == Flip(UPlane(i, w, h)) && VPlane(r, w, h) == Flip(VPlane(i, w, h))
    ensures var i, r := ToI420(d, w, h), ToI420(Rotate270(d, w, h), h, w);
            && IsFrame(i, w, h) && IsFrame(r, h, w)
            && |UPlane(i, w, h)| == |VPlane(i, w, h)| == (h / 2) * (w / 2)
            && UPlane(r, h, w) == AntiTranspose(UPlane(i, w, h), w / 2, h / 2)
            && VPlane(r, h, w) == AntiTranspose(VPlane(i, w, h), w / 2, h / 2)
  {
    hide Luma, Chroma, AntiTranspose, Turn, Flip, Rotate90, Rotate180, Rotate270, ToI420, UPlane, VPlane, Map, First,
      Second;
    var vu := Chroma(d, w, h);
    I420Planes(d, w, h);
    I420Planes(Rotate90(d, w, h), h, w);
    I420Planes(Rotate180(d, w, h), w, h);
    I420Planes(Rotate270(d, w, h), h, w);
    TurnMap(First, vu, w / 2, h / 2);
    TurnMap(Second, vu, w / 2, h / 2);
    FlipMap(First, vu);
    FlipMap(Second, vu);
    AntiTransposeMap(First, vu, w / 2, h / 2);
    AntiTransposeMap(Second, vu, w / 2, h / 2);
  }
}
