/** The loops of `YUV420Utils.java`, with their running indices over flat arrays. */
module Nv21Code {
  import opened Bytes
  import opened Plane
  import opened Nv21

  // ------------------------------------------------- where each sample ends up

  /** Byte `to` of `r` is byte `from` of `d`. */
  predicate Moved(r: Bytes, to: int, d: Bytes, from: int) {
    0 <= to < |r| && 0 <= from < |d| && r[to] == d[from]
  }

  /** A luma sample in the flat frame. */
  lemma SampleInFrame(d: Bytes, w: nat, h: nat, row: nat, col: nat)
    requires IsFrame(d, w, h) && row < h && col < w
    ensures row * w + col < w * h == h * w <= |d|
    ensures At(Luma(d, w, h), w, h, row, col) == d[row * w + col]
  {
    FrameSizeParts(w, h);
    CellIndex(w, h, row, col);
  }

  /** Where `rotate90` puts the luma sample in column `x` and row `y`; also, with `y == -1`, where the next column
      begins. */
  function LumaTarget(h: nat, x: nat, y: int): int { x * h + (h - 1 - y) }

  lemma NextLumaTarget(h: nat, x: nat, y: int)
    ensures LumaTarget(h, x, y - 1) == LumaTarget(h, x, y) + 1
    ensures LumaTarget(h, x + 1, h - 1) == LumaTarget(h, x, -1)
    ensures LumaTarget(h, 0, h - 1) == 0
    ensures LumaTarget(h, x, h - 1) == x * h
  {
  }

  lemma Rotate90Luma(d: Bytes, r: Bytes, w: nat, h: nat, x: nat, y: nat)
    requires IsFrame(d, w, h) && x < w && y < h && r == Rotate90(d, w, h)
    ensures LumaTarget(h, x, y) < w * h && Moved(r, LumaTarget(h, x, y), d, y * w + x)
  {
    hide Turn, Rotate90, Luma, At;
    FrameSizeParts(w, h);
    SampleInFrame(d, w, h, y, x);
    SampleInFrame(r, h, w, x, h - 1 - y);
    TurnAt(Luma(d, w, h), w, h, x, h - 1 - y);
  }

  /** A pair of a chroma plane in the flat frame. */
  lemma PairInFrame(d: Bytes, w: nat, h: nat, row: nat, col: nat)
    requires IsFrame(d, w, h) && row < h / 2 && col < w / 2
    ensures var k := w * h + row * w + 2 * col;
            && k + 1 < |d| && k == w * h + 2 * (row * (w / 2) + col)
            && At(Chroma(d, w, h), w / 2, h / 2, row, col) == (d[k], d[k + 1])
  {
    FrameSizeParts(w, h);
    CellIndex(w / 2, h / 2, row, col);
    assert row * w == 2 * (row * (w / 2)) by {
      assert w == 2 * (w / 2);
    }
  }

  /** Where `rotate90` puts the U byte of the pair in column `x` and row `y`; with `y == h / 2`, one pair before the
      column. */
  function ChromaTarget(w: nat, h: nat, x: int, y: nat): int { w * h + 2 * (x * (h / 2) + (h / 2 - 1 - y)) + 1 }

  lemma NextChromaTarget(w: nat, h: nat, x: int, y: nat)
    ensures ChromaTarget(w, h, x, y + 1) == ChromaTarget(w, h, x, y) - 2
    ensures ChromaTarget(w, h, x - 1, 0) == ChromaTarget(w, h, x, h / 2)
    ensures ChromaTarget(w, h, -1, 0) == w * h - 1
    ensures Even(w, h) ==> ChromaTarget(w, h, w / 2 - 1, 0) == FrameSize(w, h) - 1
  {
    if Even(w, h) {
      FrameSizeParts(w, h);
      var a, b := w / 2, h / 2;
      assert (a - 1) * b == a * b - b;
    }
    assert (x - 1) * (h / 2) == x * (h / 2) - h / 2;
  }

  lemma Rotate90Chroma(d: Bytes, r: Bytes, w: nat, h: nat, x: nat, y: nat)
    requires IsFrame(d, w, h) && x < w / 2 && y < h / 2 && r == Rotate90(d, w, h)
    ensures w * h < ChromaTarget(w, h, x, y)
    ensures Moved(r, ChromaTarget(w, h, x, y), d, w * h + y * w + (2 * x + 1))
    ensures Moved(r, ChromaTarget(w, h, x, y) - 1, d, w * h + y * w + 2 * x)
  {
    hide Turn, Rotate90, Chroma, At;
    FrameSizeParts(w, h);
    PairInFrame(d, w, h, y, x);
    PairInFrame(r, h, w, x, h / 2 - 1 - y);
    TurnAt(Chroma(d, w, h), w / 2, h / 2, x, h / 2 - 1 - y);
  }

  /** `rotate90` */
  method Rotate90Frame(data: array<byte>, width: nat, height: nat) returns (yuv: array<byte>)
    requires Even(width, height) && data.Length >= FrameSize(width, height)
    ensures fresh(yuv) && yuv[..] == Rotate90(data[..FrameSize(width, height)], width, height)
  {
    hide Rotate90;
    yuv := new byte[width * height * 3 / 2];
    TurnLuma(data, yuv, width, height);
    TurnChroma(data, yuv, width, height);
    assert yuv[..] == Rotate90(data[..FrameSize(width, height)], width, height);
  }

  method TurnLuma(data: array<byte>, yuv: array<byte>, width: nat, height: nat)
    requires Even(width, height) && data.Length >= FrameSize(width, height) == yuv.Length && data != yuv
    modifies yuv
    ensures width * height <= yuv.Length
    ensures var r := Rotate90(data[..FrameSize(width, height)], width, height);
            forall k :: 0 <= k < width * height ==> yuv[k] == r[k]
  {
    hide Rotate90, LumaTarget;
    ghost var d := data[..FrameSize(width, height)];
    ghost var r := Rotate90(d, width, height);
    FrameSizeParts(width, height);
    var i, x := 0, 0;
    NextLumaTarget(height, 0, 0);
    while x < width
      invariant x <= width && i == LumaTarget(height, x, height - 1) <= |r|
      invariant forall k :: 0 <= k < i ==> yuv[k] == r[k]
    {
      var y := height - 1;
      while y >= 0
        invariant -1 <= y < height && i == LumaTarget(height, x, y) <= |r|
        invariant forall k :: 0 <= k < i ==> yuv[k] == r[k]
      {
        Rotate90Luma(d, r, width, height, x, y);
        yuv[i] := data[y * width + x];
        i := i + 1;
        NextLumaTarget(height, x, y);
        y := y - 1;
      }
      NextLumaTarget(height, x, 0);
      x := x + 1;
    }
    NextLumaTarget(height, width, 0);
  }

  /** The chroma part of the frame is filled from its end. */
  method TurnChroma(data: array<byte>, yuv: array<byte>, width: nat, height: nat)
    requires Even(width, height) && data.Length >= FrameSize(width, height) == yuv.Length && data != yuv
    modifies yuv
    ensures width * height <= yuv.Length
    ensures forall k :: 0 <= k < width * height ==> yuv[k] == old(yuv[k])
    ensures var r := Rotate90(data[..FrameSize(width, height)], width, height);
            forall k :: width * height <= k < yuv.Length ==> yuv[k] == r[k]
  {
    hide Rotate90, ChromaTarget;
    ghost var d := data[..FrameSize(width, height)];
    ghost var r := Rotate90(d, width, height);
    FrameSizeParts(width, height);
    NextChromaTarget(width, height, 0, 0);
    var area := width * height;
    var i := width * height * 3 / 2 - 1;
    assert i == |r| - 1 == ChromaTarget(width, height, width / 2 - 1, 0);
    hide FrameSize;
    var x := width - 1;
    while x > 0
      invariant -1 <= x < width && (x - 1) % 2 == 0
      invariant area - 1 <= i == ChromaTarget(width, height, (x - 1) / 2, 0) < |r|
      invariant forall k :: 0 <= k < area ==> yuv[k] == old(yuv[k])
      invariant forall k :: i < k < |r| ==> yuv[k] == r[k]
    {
      var y := 0;
      while y < height / 2
        invariant 0 <= y <= height / 2 && area - 1 <= i == ChromaTarget(width, height, (x - 1) / 2, y) < |r|
        invariant forall k :: 0 <= k < area ==> yuv[k] == old(yuv[k])
        invariant forall k :: i < k < |r| ==> yuv[k] == r[k]
      {
        Rotate90Chroma(d, r, width, height, (x - 1) / 2, y);
        NextChromaTarget(width, height, (x - 1) / 2, y);
        yuv[i] := data[area + y * width + x];
        i := i - 1;
        yuv[i] := data[area + y * width + (x - 1)];
        i := i - 1;
        y := y + 1;
      }
      NextChromaTarget(width, height, (x - 1) / 2, 0);
      x := x - 2;
    }
  }

  // ------------------------------------------------------------------ half a turn

  /** Luma sample `i` of `area` goes to the mirror position; pair `k` comes from the mirror position, its bytes in
      order. */
  predicate SampleReversed(r: Bytes, d: Bytes, area: nat, i: nat) { Moved(r, area - 1 - i, d, i) }

  predicate PairReversed(r: Bytes, d: Bytes, area: nat, k: nat) {
    Moved(r, area + 2 * k, d, |d| - 2 - 2 * k) && Moved(r, area + 2 * k + 1, d, |d| - 1 - 2 * k)
  }

  lemma Rotate180Luma(d: Bytes, r: Bytes, w: nat, h: nat, i: nat)
    requires IsFrame(d, w, h) && i < w * h && r == Rotate180(d, w, h)
    ensures SampleReversed(r, d, w * h, i)
  {
    hide Rotate180;
    FrameSizeParts(w, h);
    assert Luma(r, w, h)[w * h - 1 - i] == Luma(d, w, h)[i];
  }

  lemma Rotate180Chroma(d: Bytes, r: Bytes, w: nat, h: nat, k: nat)
    requires IsFrame(d, w, h) && w * h + 2 * k + 1 < |d| && r == Rotate180(d, w, h)
    ensures PairReversed(r, d, w * h, k)
  {
    hide Rotate180;
    FrameSizeParts(w, h);
    var m := |Chroma(d, w, h)|;
    assert Chroma(r, w, h)[k] == Chroma(d, w, h)[m - 1 - k];
  }

  /** `rotate180` */
  method Rotate180Frame(data: array<byte>, width: nat, height: nat) returns (yuv: array<byte>)
    requires Even(width, height) && data.Length >= FrameSize(width, height)
    ensures fresh(yuv) && yuv[..] == Rotate180(data[..FrameSize(width, height)], width, height)
  {
    hide Rotate180;
    yuv := new byte[width * height * 3 / 2];
    ghost var d := data[..FrameSize(width, height)];
    ghost var r := Rotate180(d, width, height);
    FrameSizeParts(width, height);
    forall i: nat | i < width * height ensures SampleReversed(r, d, width * height, i) {
      Rotate180Luma(d, r, width, height, i);
    }
    forall k: nat | k < (height / 2) * (width / 2) ensures PairReversed(r, d, width * height, k) {
      Rotate180Chroma(d, r, width, height, k);
    }
    ReversePlanes(data, yuv, width * height, (height / 2) * (width / 2), d, r);
    assert yuv[..] == r;
  }

  /** Both loops of `rotate180`: `area` luma samples, then `q` pairs. */
  method ReversePlanes(data: array<byte>, yuv: array<byte>, area: nat, ghost q: nat, ghost d: Bytes, ghost r: Bytes)
    requires |d| == |r| == yuv.Length == area + 2 * q <= data.Length && data != yuv && d == data[..area + 2 * q]
    requires forall i: nat :: i < area ==> SampleReversed(r, d, area, i)
    requires forall k: nat :: k < q ==> PairReversed(r, d, area, k)
    modifies yuv
    ensures forall k :: 0 <= k < |r| ==> yuv[k] == r[k]
  {
    var n, count := yuv.Length, 0;
    var i := area - 1;
    while i >= 0
      invariant -1 <= i < area && count == area - 1 - i
      invariant forall k :: 0 <= k < count ==> yuv[k] == r[k]
    {
      assert SampleReversed(r, d, area, i);
      yuv[count] := data[i];
      count := count + 1;
      i := i - 1;
    }
    i := n - 1;
    ghost var k := 0;
    while i >= area
      invariant k <= q && i == n - 1 - 2 * k && count == area + 2 * k
      invariant forall k :: 0 <= k < count ==> yuv[k] == r[k]
    {
      assert PairReversed(r, d, area, k);
      yuv[count] := data[i - 1];
      count := count + 1;
      yuv[count] := data[i];
      count := count + 1;
      i := i - 2;
      k := k + 1;
    }
  }

  // -------------------------------------------------------------------- rotate270

  /** The first half of `rotate270`: both planes transposed. */
  function TransposeFrame(d: Bytes, w: nat, h: nat): (r: Bytes)
    requires IsFrame(d, w, h)
    ensures IsFrame(r, h, w)
    ensures Luma(r, h, w) == Transpose(Luma(d, w, h), w, h)
            && Chroma(r, h, w) == Transpose(Chroma(d, w, h), w / 2, h / 2)
  {
    AssembledParts(Transpose(Luma(d, w, h), w, h), Transpose(Chroma(d, w, h), w / 2, h / 2), h, w);
    Assemble(Transpose(Luma(d, w, h), w, h), Transpose(Chroma(d, w, h), w / 2, h / 2))
  }

  /** Half a turn does not look at the shape of the frame, only at its area. */
  lemma HalfTurnOfTransposed(d: Bytes, w: nat, h: nat)
    requires IsFrame(d, w, h)
    ensures IsFrame(TransposeFrame(d, w, h), w, h)
    ensures Rotate180(TransposeFrame(d, w, h), w, h) == Rotate270(d, w, h)
  {
    hide Transpose, TransposeFrame, Rotate180, Rotate270, Flip, PairsFrom;
    var t := TransposeFrame(d, w, h);
    FrameSizeParts(w, h);
    var u, v := Rotate180(t, w, h), Rotate270(d, w, h);
    assert Luma(t, w, h) == Luma(t, h, w) && Luma(u, w, h) == Luma(u, h, w);
    assert Chroma(t, w, h) == Chroma(t, h, w) && Chroma(u, w, h) == Chroma(u, h, w);
    SameFrame(u, v, h, w);
  }

  lemma Product(a: nat, b: nat)
    ensures (a + 1) * b == a * b + b
  {
  }

  function TransposedLuma(h: nat, x: nat, y: nat): nat { x * h + y }

  function TransposedChroma(w: nat, h: nat, x: nat, y: nat): nat { w * h + 2 * (x * (h / 2) + y) }

  lemma NextTransposed(w: nat, h: nat, x: nat, y: nat)
    ensures TransposedLuma(h, x, y + 1) == TransposedLuma(h, x, y) + 1
    ensures TransposedLuma(h, x + 1, 0) == TransposedLuma(h, x, h)
    ensures TransposedLuma(h, 0, 0) == 0 && TransposedLuma(h, w, 0) == w * h
    ensures TransposedChroma(w, h, x, y + 1) == TransposedChroma(w, h, x, y) + 2
    ensures TransposedChroma(w, h, x + 1, 0) == TransposedChroma(w, h, x, h / 2)
    ensures TransposedChroma(w, h, 0, 0) == w * h
    ensures Even(w, h) ==> TransposedChroma(w, h, w / 2, 0) == FrameSize(w, h)
  {
    if Even(w, h) {
      FrameSizeParts(w, h);
      assert (w / 2) * (h / 2) == (h / 2) * (w / 2);
    }
    Product(x, h);
    Product(x, h / 2);
  }

  lemma TransposeLumaSample(d: Bytes, r: Bytes, w: nat, h: nat, x: nat, y: nat)
    requires IsFrame(d, w, h) && x < w && y < h && r == TransposeFrame(d, w, h)
    ensures Moved(r, TransposedLuma(h, x, y), d, y * w + x)
  {
    hide Transpose, TransposeFrame, Luma, At;
    FrameSizeParts(w, h);
    SampleInFrame(d, w, h, y, x);
    SampleInFrame(r, h, w, x, y);
    TransposeAt(Luma(d, w, h), w, h, x, y);
  }

  lemma TransposeChromaPair(d: Bytes, r: Bytes, w: nat, h: nat, x: nat, y: nat)
    requires IsFrame(d, w, h) && x < w / 2 && y < h / 2 && r == TransposeFrame(d, w, h)
    ensures Moved(r, TransposedChroma(w, h, x, y), d, w * h + y * w + 2 * x)
    ensures Moved(r, TransposedChroma(w, h, x, y) + 1, d, w * h + y * w + (2 * x + 1))
  {
    hide Transpose, TransposeFrame, Chroma, At;
    FrameSizeParts(w, h);
    PairInFrame(d, w, h, y, x);
    PairInFrame(r, h, w, x, y);
    TransposeAt(Chroma(d, w, h), w / 2, h / 2, x, y);
  }

  /** `rotate270` */
  method Rotate270Frame(data: array<byte>, width: nat, height: nat) returns (result: array<byte>)
    requires Even(width, height) && data.Length >= FrameSize(width, height)
    ensures fresh(result) && result[..] == Rotate270(data[..FrameSize(width, height)], width, height)
  {
    hide Rotate270, TransposeFrame, Rotate180;
    var yuv := new byte[width * height * 3 / 2];
    ghost var d := data[..FrameSize(width, height)];
    var k := TransposeLumaPlane(data, yuv, width, height);
    TransposeChromaPlane(data, yuv, width, height, k);
    assert yuv[..yuv.Length] == TransposeFrame(d, width, height);
    HalfTurnOfTransposed(d, width, height);
    result := Rotate180Frame(yuv, width, height);
  }

  method TransposeLumaPlane(data: array<byte>, yuv: array<byte>, width: nat, height: nat) returns (k: nat)
    requires Even(width, height) && data.Length >= FrameSize(width, height) == yuv.Length && data != yuv
    modifies yuv
    ensures k == width * height <= yuv.Length
    ensures var r := TransposeFrame(data[..FrameSize(width, height)], width, height);
            forall j :: 0 <= j < k ==> yuv[j] == r[j]
  {
    hide TransposeFrame, TransposedLuma;
    ghost var d := data[..FrameSize(width, height)];
    ghost var r := TransposeFrame(d, width, height);
    FrameSizeParts(width, height);
    NextTransposed(width, height, 0, 0);
    k := 0;
    var i := 0;
    while i < width
      invariant i <= width && k == TransposedLuma(height, i, 0) <= |r|
      invariant forall j :: 0 <= j < k ==> yuv[j] == r[j]
    {
      var nPos, j := 0, 0;
      while j < height
        invariant j <= height && nPos == j * width && k == TransposedLuma(height, i, j) <= |r|
        invariant forall j :: 0 <= j < k ==> yuv[j] == r[j]
      {
        TransposeLumaSample(d, r, width, height, i, j);
        yuv[k] := data[nPos + i];
        NextTransposed(width, height, i, j);
        Product(j, width);
        k := k + 1;
        nPos := nPos + width;
        j := j + 1;
      }
      NextTransposed(width, height, i, 0);
      i := i + 1;
    }
  }

  method TransposeChromaPlane(data: array<byte>, yuv: array<byte>, width: nat, height: nat, k0: nat)
    requires Even(width, height) && data.Length >= FrameSize(width, height) == yuv.Length && data != yuv
             && k0 == width * height
    modifies yuv
    ensures k0 <= yuv.Length
    ensures forall j :: 0 <= j < k0 ==> yuv[j] == old(yuv[j])
    ensures var r := TransposeFrame(data[..FrameSize(width, height)], width, height);
            forall j :: k0 <= j < yuv.Length ==> yuv[j] == r[j]
  {
    hide TransposeFrame, TransposedChroma;
    ghost var d := data[..FrameSize(width, height)];
    ghost var r := TransposeFrame(d, width, height);
    FrameSizeParts(width, height);
    NextTransposed(width, height, 0, 0);
    var k, i := k0, 0;
    while i < width
      invariant i <= width && i % 2 == 0 && k0 <= k == TransposedChroma(width, height, i / 2, 0) <= |r|
      invariant forall j :: 0 <= j < k0 ==> yuv[j] == old(yuv[j])
      invariant forall j :: k0 <= j < k ==> yuv[j] == r[j]
    {
      var nPos, j := k0, 0;
      while j < height / 2
        invariant j <= height / 2 && nPos == k0 + j * width
                  && k0 <= k == TransposedChroma(width, height, i / 2, j) <= |r|
        invariant forall j :: 0 <= j < k0 ==> yuv[j] == old(yuv[j])
        invariant forall j :: k0 <= j < k ==> yuv[j] == r[j]
      {
        TransposeChromaPair(d, r, width, height, i / 2, j);
        yuv[k] := data[nPos + i];
        yuv[k + 1] := data[nPos + i + 1];
        NextTransposed(width, height, i / 2, j);
        Product(j, width);
        k := k + 2;
        nPos := nPos + width;
        j := j + 1;
      }
      NextTransposed(width, height, i / 2, 0);
      i := i + 2;
    }
  }

  // ------------------------------------------------------------------- nv21ToI420

  /** Pair `k` goes to sample `k` of both chroma planes of `q` samples. */
  predicate PairSeparated(r: Bytes, d: Bytes, total: nat, q: nat, k: nat) {
    Moved(r, total + k, d, total + 2 * k + 1) && Moved(r, total + q + k, d, total + 2 * k)
  }

  lemma PairAt(d: Bytes, w: nat, h: nat, k: nat)
    requires IsFrame(d, w, h) && w * h + 2 * k + 1 < |d|
    ensures k < |Chroma(d, w, h)| == (h / 2) * (w / 2)
    ensures Chroma(d, w, h)[k] == (d[w * h + 2 * k], d[w * h + 2 * k + 1])
  {
    FrameSizeParts(w, h);
  }

  lemma PlanesInFrame(i: Bytes, w: nat, h: nat, k: nat)
    requires IsFrame(i, w, h) && k < (h / 2) * (w / 2)
    ensures w * h + (h / 2) * (w / 2) + k < |i| && |UPlane(i, w, h)| == |VPlane(i, w, h)| == (h / 2) * (w / 2)
    ensures UPlane(i, w, h)[k] == i[w * h + k] && VPlane(i, w, h)[k] == i[w * h + (h / 2) * (w / 2) + k]
  {
    FrameSizeParts(w, h);
  }

  lemma PairInPlanes(d: Bytes, w: nat, h: nat, k: nat)
    requires IsFrame(d, w, h) && w * h + 2 * k + 1 < |d|
    ensures PairSeparated(ToI420(d, w, h), d, w * h, (h / 2) * (w / 2), k)
  {
    hide ToI420, UPlane, VPlane, Chroma, FrameSize;
    I420Planes(d, w, h);
    PairAt(d, w, h, k);
    var r, vu := ToI420(d, w, h), Chroma(d, w, h);
    PlanesInFrame(r, w, h, k);
    assert UPlane(r, w, h)[k] == Map(Second, vu)[k] == vu[k].1;
    assert VPlane(r, w, h)[k] == Map(First, vu)[k] == vu[k].0;
  }

  /** `nv21ToI420`: three cursors, one for each output plane. */
  method ToI420Frame(data: array<byte>, width: nat, height: nat) returns (ret: array<byte>)
    requires Even(width, height) && data.Length == FrameSize(width, height)
    ensures fresh(ret) && ret[..] == ToI420(data[..], width, height)
  {
    hide ToI420;
    ret := new byte[data.Length];
    var total := width * height;
    ghost var d := data[..];
    ghost var r := ToI420(d, width, height);
    FrameSizeParts(width, height);
    I420Planes(d, width, height);
    CopyInto(ret, 0, data[..total]);
    LumaFirst(d, width, height);
    forall k: nat | k < total / 4 ensures PairSeparated(r, d, total, total / 4, k) {
      PairInPlanes(d, width, height, k);
    }
    DeinterleavePairs(data, ret, total, total / 4, r);
    assert ret[..] == r;
  }

  /** The loop over the pairs, with one cursor in each chroma plane of `q` samples. */
  method DeinterleavePairs(data: array<byte>, ret: array<byte>, total: nat, q: nat, ghost r: Bytes)
    requires data.Length == ret.Length == |r| == total + 2 * q && data != ret
    requires forall k: nat :: k < q ==> PairSeparated(r, data[..], total, q, k)
    modifies ret
    ensures forall k :: 0 <= k < total ==> ret[k] == old(ret[k])
    ensures forall k :: total <= k < |r| ==> ret[k] == r[k]
  {
    var u, v, i := total, total + q, total;
    ghost var k := 0;
    while i < data.Length
      invariant k <= q && i == total + 2 * k && u == total + k && v == total + q + k
      invariant forall j :: 0 <= j < total ==> ret[j] == old(ret[j])
      invariant forall j :: total <= j < u ==> ret[j] == r[j]
      invariant forall j :: total + q <= j < v ==> ret[j] == r[j]
    {
      assert PairSeparated(r, data[..], total, q, k);
      ret[v] := data[i];
      v := v + 1;
      ret[u] := data[i + 1];
      u := u + 1;
      i := i + 2;
      k := k + 1;
    }
  }

  lemma LumaFirst(d: Bytes, w: nat, h: nat)
    requires IsFrame(d, w, h)
    ensures w * h <= |d| == |ToI420(d, w, h)|
    ensures forall k :: 0 <= k < w * h ==> ToI420(d, w, h)[k] == d[k]
  {
    FrameSizeParts(w, h);
  }
}
