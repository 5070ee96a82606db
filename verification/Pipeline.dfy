/** From the encoder's NAL units, through the callbacks, to the tags that the video writer queues. */
module Pipeline {
  import opened Bytes
  import opened AnnexB
  import opened FlvTag
  import opened Regroup
  import opened RtmpSender
  import Mux
  import Receiver

  /** A unit as x264 makes it: a four-byte start code, then a body without start codes whose first byte agrees with the
      type. */
  ghost predicate WellFormed(n: Nal) {
    && |n.payload| > 4 && n.payload[..4] == START_CODE && Free(UnitBody(n))
    && (n.IsSps() <==> Mux.IsSps(UnitBody(n)))
    && (n.IsPps() ==> !Mux.IsSlice(UnitBody(n)))
  }

  function UnitBody(n: Nal): Bytes { if |n.payload| >= 4 then n.payload[4..] else [] }

  function UnitBodies(nals: seq<Nal>): (bs: seq<Bytes>)
    ensures |bs| == |nals|
  {
    seq(|nals|, i requires 0 <= i < |nals| => UnitBody(nals[i]))
  }

  /** The units in the callback for unit `k`. */
  function Chunk(nals: seq<Nal>, k: nat): seq<Bytes>
    requires k < |nals|
  {
    if nals[k].IsPps() then [UnitBody(nals[SpsIndex(nals, k)]), UnitBody(nals[k])] else [UnitBody(nals[k])]
  }

  function Chunks(nals: seq<Nal>, k: nat): seq<seq<Bytes>>
    requires k <= |nals|
  {
    if k == 0 then []
    else Chunks(nals, k - 1) + (if nals[k - 1].IsSps() then [] else [Chunk(nals, k - 1)])
  }

  function SplitAll(callbacks: seq<Bytes>): (r: seq<seq<Bytes>>)
    ensures |r| == |callbacks|
  {
    seq(|callbacks|, i requires 0 <= i < |callbacks| => Split(callbacks[i]))
  }

  // ------------------------------------------------ what the scanner makes of a callback

  lemma JoinOne(a: Bytes)
    ensures Join([a]) == START_CODE + a
  {
    assert Join([a]) == START_CODE + a + Join([a][1..]);
  }

  lemma JoinTwo(a: Bytes, b: Bytes)
    ensures Join([a, b]) == (START_CODE + a) + (START_CODE + b)
  {
    assert [a, b][1..] == [b];
    JoinOne(b);
  }

  /** The scanner finds exactly the units that the callback was made of. */
  lemma CallbackSplits(nals: seq<Nal>, k: nat)
    requires k < |nals| && forall n :: n in nals ==> WellFormed(n)
    ensures Split(Callback(nals, k)) == Chunk(nals, k)
  {
    hide Split, Join, Mux.IsSps, Mux.IsSlice;
    var chunk := Chunk(nals, k);
    var s := nals[SpsIndex(nals, k)];
    assert WellFormed(nals[k]) && WellFormed(s);
    assert nals[k].payload == START_CODE + UnitBody(nals[k]) && s.payload == START_CODE + UnitBody(s);
    if nals[k].IsPps() {
      JoinTwo(UnitBody(s), UnitBody(nals[k]));
    } else {
      JoinOne(UnitBody(nals[k]));
    }
    assert Callback(nals, k) == Join(chunk);
    SplitUndoesJoin(chunk);
  }

  lemma {:induction false} CallbacksSplit(nals: seq<Nal>, k: nat)
    requires k <= |nals| && forall n :: n in nals ==> WellFormed(n)
    ensures SplitAll(Callbacks(nals, k)) == Chunks(nals, k)
  {
    hide WellFormed, Callback, Chunk, Split;
    if k > 0 {
      CallbacksSplit(nals, k - 1);
      if !nals[k - 1].IsSps() {
        CallbackSplits(nals, k - 1);
        assert SplitAll(Callbacks(nals, k)) == SplitAll(Callbacks(nals, k - 1)) + [Split(Callback(nals, k - 1))];
      } else {
        assert Callbacks(nals, k) == Callbacks(nals, k - 1);
      }
    }
  }

  /** With paired parameter sets, the chunks contain all bodies in order. */
  lemma {:induction false} ChunksAreBodies(nals: seq<Nal>, k: nat)
    requires k <= |nals| && Paired(nals, k)
    ensures Concat(Chunks(nals, k)) == UnitBodies(nals)[..Progress(nals, k)]
  {
    if k > 0 {
      ChunksAreBodies(nals, k - 1);
      var j := k - 1;
      if nals[j].IsSps() {
        assert Progress(nals, k) == j;
        assert Chunks(nals, k) == Chunks(nals, j);
      } else {
        ConcatAppend(Chunks(nals, j), [Chunk(nals, j)]);
        assert Concat([Chunk(nals, j)]) == Chunk(nals, j) + [];
        if j > 0 && nals[j - 1].IsSps() {
          assert nals[j].IsPps();
        }
      }
    }
  }

  // ------------------------------------------------------- what the writer makes of them

  /** Writing one list after another is writing their concatenation, unless the first ends in an SPS still to be
      sent. */
  lemma {:induction false} WriteConcat(a: seq<Bytes>, b: seq<Bytes>, configured: bool)
    requires Mux.Write(a, configured).complete
    ensures var w := Mux.Write(a, configured);
            Mux.Write(a + b, configured) == Mux.After(w.tags, Mux.Write(b, w.configured))
    decreases |a|
  {
    hide Mux.IsSps, Mux.IsSlice, Mux.HeaderTag, Mux.SliceTag;
    if a == [] {
      assert a + b == b;
    } else {
      assert (a + b)[1..] == a[1..] + b;
      if Mux.IsSps(a[0]) && !configured {
        assert (a + b)[2..] == a[2..] + b;
        WriteConcat(a[2..], b, true);
      } else {
        WriteConcat(a[1..], b, configured);
      }
    }
  }

  /** A list that the writer gets through whatever the configuration bit. */
  predicate WholeChunk(chunk: seq<Bytes>) {
    (|chunk| == 1 && !Mux.IsSps(chunk[0])) || (|chunk| == 2 && Mux.IsSps(chunk[0]) && !Mux.IsSps(chunk[1]))
  }

  lemma WholeChunkCompletes(chunk: seq<Bytes>, configured: bool)
    requires WholeChunk(chunk)
    ensures Mux.Write(chunk, configured).complete
  {
    if |chunk| == 2 {
      assert chunk[1..] == [chunk[1]] && chunk[2..] == [];
    } else {
      assert chunk[1..] == [];
    }
  }

  lemma {:induction false} FramesAreOneList(chunks: seq<seq<Bytes>>, configured: bool)
    requires forall i :: 0 <= i < |chunks| ==> WholeChunk(chunks[i])
    ensures Mux.WriteFrames(chunks, configured) == Mux.Write(Concat(chunks), configured)
    decreases |chunks|
  {
    hide Mux.Write, WholeChunk;
    if chunks == [] {
      Mux.WritesNothing(configured);
    } else {
      var w := Mux.Write(chunks[0], configured);
      WholeChunkCompletes(chunks[0], configured);
      FramesAreOneList(chunks[1..], w.configured);
      WriteConcat(chunks[0], Concat(chunks[1..]), configured);
    }
  }

  lemma {:induction false} ChunksAreWhole(nals: seq<Nal>, k: nat)
    requires k <= |nals| && Paired(nals, k) && forall n :: n in nals ==> WellFormed(n)
    ensures forall i :: 0 <= i < |Chunks(nals, k)| ==> WholeChunk(Chunks(nals, k)[i])
  {
    hide Mux.IsSps, Mux.IsSlice;
    if k > 0 {
      ChunksAreWhole(nals, k - 1);
      var j := k - 1;
      assert WellFormed(nals[j]) && WellFormed(nals[SpsIndex(nals, j)]);
    }
  }

  // ----------------------------------------------------------------- the pipeline

  function AllChunks(calls: seq<seq<Nal>>): seq<seq<Bytes>> {
    if calls == [] then [] else Chunks(calls[0], |calls[0]|) + AllChunks(calls[1..])
  }

  ghost predicate Proper(calls: seq<seq<Nal>>) {
    forall i :: 0 <= i < |calls| ==> WellPaired(calls[i]) && forall n :: n in calls[i] ==> WellFormed(n)
  }

  lemma {:induction false} AllChunksFacts(calls: seq<seq<Nal>>)
    requires Proper(calls)
    ensures SplitAll(AllCallbacks(calls)) == AllChunks(calls)
    ensures forall i :: 0 <= i < |AllChunks(calls)| ==> WholeChunk(AllChunks(calls)[i])
    ensures Concat(AllChunks(calls)) == UnitBodies(Concat(calls))
  {
    hide WellFormed, WholeChunk, Split, Chunks, Callbacks, UnitBodies, SplitAll;
    if calls != [] {
      var nals := calls[0];
      AllChunksFacts(calls[1..]);
      CallbacksSplit(nals, |nals|);
      ChunksAreWhole(nals, |nals|);
      ChunksAreBodies(nals, |nals|);
      ConcatAppend(Chunks(nals, |nals|), AllChunks(calls[1..]));
      assert UnitBodies(nals)[..|nals|] == UnitBodies(nals);
      BodiesConcat(nals, Concat(calls[1..]));
      SplitAllConcat(Callbacks(nals, |nals|), AllCallbacks(calls[1..]));
    } else {
      assert SplitAll([]) == [] && UnitBodies([]) == [];
    }
  }

  lemma BodiesConcat(a: seq<Nal>, b: seq<Nal>)
    ensures UnitBodies(a + b) == UnitBodies(a) + UnitBodies(b)
  {
  }

  lemma SplitAllConcat(a: seq<Bytes>, b: seq<Bytes>)
    ensures SplitAll(a + b) == SplitAll(a) + SplitAll(b)
  {
  }

  /** The first SPS among the units of all calls. */
  function FirstPair(nals: seq<Nal>): (k: nat)
    ensures k <= |nals|
    ensures k < |nals| ==> nals[k].IsSps()
    ensures forall i :: 0 <= i < k ==> !nals[i].IsSps()
  {
    if nals == [] || nals[0].IsSps() then 0 else 1 + FirstPair(nals[1..])
  }

  /** When x264 makes parameter sets only as adjacent pairs, the callbacks of any number of encoder calls, each scanned
      and written on its own, queue exactly one sequence header, made of the first pair, at its place among all slices,
      which are queued in order; and no call of the writer gives up. */
  lemma EncoderToTags(calls: seq<seq<Nal>>)
    requires Proper(calls)
    ensures var nals, w := Concat(calls), Mux.WriteFrames(SplitAll(AllCallbacks(calls)), false);
            var k := FirstPair(nals);
            && w.complete
            && if k == |nals| then w.tags == Mux.SliceTags(UnitBodies(nals)) && !w.configured
               else
                 && k + 1 < |nals| && nals[k + 1].IsPps() && w.configured
                 && w.tags
                   == Mux.SliceTags(UnitBodies(nals)[..k]) + [Mux.HeaderTag(UnitBody(nals[k]), UnitBody(nals[k + 1]))]
                              + Mux.SliceTags(UnitBodies(nals)[k..])
  {
    hide Mux.Write, Mux.SliceTags, Mux.HeaderTag, Mux.IsSps, Mux.IsSlice, Split, WholeChunk;
    var nals := Concat(calls);
    AllChunksFacts(calls);
    FramesAreOneList(AllChunks(calls), false);
    AllWellFormed(calls);
    AllPaired(calls);
    FirstPairIsFirstSps(nals);
    Mux.WriteShape(UnitBodies(nals), false);
    var k := FirstPair(nals);
    if k < |nals| {
      PairIsNoSlice(nals, k);
    }
  }

  lemma {:induction false} AllWellFormed(calls: seq<seq<Nal>>)
    requires Proper(calls)
    ensures forall n :: n in Concat(calls) ==> WellFormed(n)
  {
    hide WellFormed;
    if calls != [] {
      AllWellFormed(calls[1..]);
    }
  }

  /** Pairs that are complete in each call are complete in the whole sequence. */
  lemma {:induction false} AllPaired(calls: seq<seq<Nal>>)
    requires Proper(calls)
    ensures forall i :: 0 <= i < |Concat(calls)| && Concat(calls)[i].IsSps() ==>
              i + 1 < |Concat(calls)| && Concat(calls)[i + 1].IsPps()
  {
    hide WellFormed;
    if calls != [] {
      AllPaired(calls[1..]);
      var a: seq<Nal>, b: seq<Nal> := calls[0], Concat(calls[1..]);
      forall i | 0 <= i < |a + b| && (a + b)[i].IsSps() ensures i + 1 < |a + b| && (a + b)[i + 1].IsPps() {
        if i < |a| {
          assert i + 1 < |a| && a[i + 1].IsPps();
        } else {
          assert b[i - |a|].IsSps();
        }
      }
    }
  }

  lemma {:induction false} FirstPairIsFirstSps(nals: seq<Nal>)
    requires forall n :: n in nals ==> WellFormed(n)
    ensures FirstPair(nals) == Mux.FirstSps(UnitBodies(nals))
  {
    hide Mux.IsSps, Mux.IsSlice;
    if nals != [] {
      assert WellFormed(nals[0]);
      assert UnitBodies(nals)[1..] == UnitBodies(nals[1..]);
      FirstPairIsFirstSps(nals[1..]);
    }
  }

  /** The pair itself contains no slice, so that leaving it out of the slices changes nothing. */
  lemma PairIsNoSlice(nals: seq<Nal>, k: nat)
    requires k + 1 < |nals| && nals[k].IsSps() && nals[k + 1].IsPps() && forall n :: n in nals ==> WellFormed(n)
    ensures Mux.SliceTags(UnitBodies(nals)[k..]) == Mux.SliceTags(UnitBodies(nals)[k + 2..])
  {
    var bs := UnitBodies(nals)[k..];
    assert WellFormed(nals[k]) && WellFormed(nals[k + 1]);
    assert bs[0] == UnitBody(nals[k]) && bs[1] == UnitBody(nals[k + 1]);
    assert bs[1..][1..] == UnitBodies(nals)[k + 2..];
    assert Mux.SliceTags(bs) == Mux.SliceTags(bs[1..]);
    assert bs[1..][0] == UnitBody(nals[k + 1]);
    assert Mux.SliceTags(bs[1..]) == Mux.SliceTags(bs[1..][1..]);
  }

  /** What the first pair is, if there is one. */
  function FirstParameterSets(nals: seq<Nal>): seq<(Bytes, Bytes)> {
    var k := FirstPair(nals);
    if k + 1 < |nals| then [(UnitBody(nals[k]), UnitBody(nals[k + 1]))] else []
  }

  /** End to end: of those tags, a receiver reads every slice of every encoder call, in order and byte for byte, and
      exactly one pair of parameter sets, the first. */
  lemma EncoderToTagsRead(calls: seq<seq<Nal>>)
    requires Proper(calls)
    ensures var tags := Mux.WriteFrames(SplitAll(AllCallbacks(calls)), false).tags;
            && Receiver.SlicesOfTags(tags) == Receiver.Expected(UnitBodies(Concat(calls)))
            && Receiver.ParameterSetsOfTags(tags) == FirstParameterSets(Concat(calls))
  {
    hide Mux.Write, Mux.IsSps, Mux.IsSlice, Split, WholeChunk, Receiver.Expected, Receiver.Unconsumed;
    var nals := Concat(calls);
    AllChunksFacts(calls);
    FramesAreOneList(AllChunks(calls), false);
    AllWellFormed(calls);
    AllPaired(calls);
    FirstPairIsFirstSps(nals);
    Receiver.WrittenContent(UnitBodies(nals), false);
    if FirstPair(nals) < |nals| {
      PpsIsNotMissed(nals, FirstPair(nals));
    } else {
      NothingConsumed(UnitBodies(nals));
    }
  }

  lemma NothingConsumed(bs: seq<Bytes>)
    requires Mux.FirstSps(bs) == |bs|
    ensures Receiver.Unconsumed(bs, false) == bs
  {
  }

  /** The unit that travels in the sequence header is no slice. */
  lemma PpsIsNotMissed(nals: seq<Nal>, k: nat)
    requires k + 1 < |nals| && nals[k + 1].IsPps() && WellFormed(nals[k + 1]) && Mux.FirstSps(UnitBodies(nals)) == k
    ensures Receiver.Expected(Receiver.Unconsumed(UnitBodies(nals), false)) == Receiver.Expected(UnitBodies(nals))
  {
    hide Mux.IsSps;
    hide Receiver.Expected;
    var bs := UnitBodies(nals);
    Receiver.OneMoreExpected(bs[..k + 1], UnitBody(nals[k + 1]), bs[k + 2..]);
    assert bs == bs[..k + 1] + [UnitBody(nals[k + 1])] + bs[k + 2..];
  }

  // --------------------------------------------------- the callbacks reach the writer

  lemma NoStartCodeAtEnd(front: Bytes, body: Bytes)
    requires body != [] && Free(body)
    ensures Writable(front + (START_CODE + body))
  {
    var b, n := front + (START_CODE + body), |body|;
    assert b[|front| + 3] == 1 && b[|b| - n..] == body;
    assert n >= 4 ==> IsStartCode(b, |b| - 4) == IsStartCode(body, n - 4);
  }

  /** A callback made of well-formed units is a buffer that the video writer can read. */
  lemma CallbackIsWritable(nals: seq<Nal>, k: nat)
    requires k < |nals| && forall n :: n in nals ==> WellFormed(n)
    ensures Writable(Callback(nals, k))
  {
    hide Writable, Mux.IsSps, Mux.IsSlice;
    var body, sps := UnitBody(nals[k]), nals[SpsIndex(nals, k)].payload;
    assert WellFormed(nals[k]) && nals[k].payload == START_CODE + body;
    NoStartCodeAtEnd([], body);
    NoStartCodeAtEnd(sps, body);
    assert [] + (START_CODE + body) == nals[k].payload;
  }

  lemma {:induction false} CallbacksAreWritable(nals: seq<Nal>, k: nat)
    requires k <= |nals| && forall n :: n in nals ==> WellFormed(n)
    ensures forall b :: b in Callbacks(nals, k) ==> Writable(b)
  {
    hide WellFormed, Callback, Writable;
    if k > 0 {
      CallbacksAreWritable(nals, k - 1);
      CallbackIsWritable(nals, k - 1);
    }
  }

  lemma {:induction false} AllCallbacksAreWritable(calls: seq<seq<Nal>>)
    requires Proper(calls)
    ensures forall b :: b in AllCallbacks(calls) ==> Writable(b)
  {
    hide WellFormed, Callbacks, Writable;
    if calls != [] {
      AllCallbacksAreWritable(calls[1..]);
      CallbacksAreWritable(calls[0], |calls[0]|);
    }
  }

  // -------------------------------------------------------------- the lengths fit

  /** The unit is no longer than the length fields that it will be described by. */
  predicate Short(n: Nal) {
    if n.IsSps() || n.IsPps() then |UnitBody(n)| < 0x1_0000 else |UnitBody(n)| + 9 < 0x100_0000
  }

  lemma {:induction false} SliceTagsFit(bs: seq<Bytes>)
    requires forall b :: b in bs && Mux.IsSlice(b) ==> |b| + 9 < 0x100_0000
    ensures forall t :: t in Mux.SliceTags(bs) ==> Fits(t)
  {
    if bs != [] {
      hide Mux.IsSlice;
      SliceTagsFit(bs[1..]);
    }
  }

  lemma HeaderFits(sps: Bytes, pps: Bytes)
    requires |sps| < 0x1_0000 && |pps| < 0x1_0000
    ensures Fits(Mux.HeaderTag(sps, pps))
  {
    hide Mux.Peek;
  }

  lemma ShortSlices(nals: seq<Nal>)
    requires forall n :: n in nals ==> WellFormed(n) && Short(n)
    ensures forall b :: b in UnitBodies(nals) && Mux.IsSlice(b) ==> |b| + 9 < 0x100_0000
  {
    forall b | b in UnitBodies(nals) && Mux.IsSlice(b) ensures |b| + 9 < 0x100_0000 {
      var i :| 0 <= i < |nals| && b == UnitBodies(nals)[i];
      assert WellFormed(nals[i]) && Short(nals[i]);
    }
  }

  /** Short units give tags that a receiver can read. */
  lemma AllTagsFit(calls: seq<seq<Nal>>)
    requires Proper(calls) && forall n :: n in Concat(calls) ==> Short(n)
    ensures forall t :: t in Mux.WriteFrames(SplitAll(AllCallbacks(calls)), false).tags ==> Fits(t)
  {
    hide Fits, Mux.WriteFrames, Mux.SliceTags, Mux.HeaderTag, Split, WellFormed;
    var nals := Concat(calls);
    var bs, k := UnitBodies(nals), FirstPair(nals);
    EncoderToTags(calls);
    AllWellFormed(calls);
    ShortSlices(nals);
    SliceTagsFit(bs);
    SliceTagsFit(bs[..k]);
    SliceTagsFit(bs[k..]);
    if k < |nals| {
      assert Short(nals[k]) && Short(nals[k + 1]);
      HeaderFits(UnitBody(nals[k]), UnitBody(nals[k + 1]));
    }
  }
}
