/** What a receiver gets out of the packets that the video writer queued. */
module Receiver {
  import opened Bytes
  import opened Words
  import opened AnnexB
  import opened FlvTag
  import opened Mux
  import opened LinkedQueue
  import RtmpSender

  /** A packet carries a tag; its last four bytes may be anything. */
  predicate Carries(packet: Bytes, t: Tag, ts: word, absTs: nat) {
    && |packet| == FLV_TAG_HEAD_LEN + |Body(t)| + FLV_PRE_TAG_LEN
    && packet[..FLV_TAG_HEAD_LEN + |Body(t)|] == TagBytes(t, ts, absTs)
  }

  ghost predicate CarriesTag(packet: Bytes, t: Tag) {
    exists ts, absTs :: Carries(packet, t, ts, absTs)
  }

  /** Packets for a list of tags, each with a timestamp of its own. */
  ghost predicate CarryAll(packets: seq<Bytes>, tags: seq<Tag>) {
    |packets| == |tags| && forall i :: 0 <= i < |tags| ==> CarriesTag(packets[i], tags[i])
  }

  /** The bytes of the packets in a queue. */
  ghost function Packets(items: seq<Item<array<byte>>>): (r: seq<Bytes>)
    reads set i | 0 <= i < |items| :: items[i].data
    ensures |r| == |items|
  {
    if items == [] then [] else Packets(items[..|items| - 1]) + [items[|items| - 1].data[..]]
  }

  lemma {:induction false} PacketsConcat(a: seq<Item<array<byte>>>, b: seq<Item<array<byte>>>)
    ensures Packets(a + b) == Packets(a) + Packets(b)
  {
    if b == [] {
      assert a + b == a;
    } else {
      PacketsConcat(a, b[..|b| - 1]);
      assert (a + b)[..|a + b| - 1] == a + b[..|b| - 1];
    }
  }

  /** What the writers of `RtmpSender` queue carries the tags. */
  lemma {:induction false} QueuedPacketsCarry(items: seq<Item<array<byte>>>, tags: seq<Tag>, ts: word, absTs: nat)
    requires RtmpSender.HoldTags(items, tags, ts, absTs)
    ensures CarryAll(Packets(items), tags)
  {
    hide Body, TagBytes;
    if items != [] {
      var last := |items| - 1;
      QueuedPacketsCarry(items[..last], tags[..last], ts, absTs);
      assert RtmpSender.HoldsTag(items[last].data, tags[last], ts, absTs);
      assert Carries(Packets(items)[last], tags[last], ts, absTs);
    }
  }

  /** A slice as received: key frame or not, and the unit. */
  datatype Slice = Slice(key: bool, nal: Bytes)

  /** The slices among the packets, in order. */
  function Slices(packets: seq<Bytes>): seq<Slice> {
    if packets == [] then []
    else
      var r := Demux(packets[0]);
      (if r.Some? then SlicesIn(r.value.tag) else []) + Slices(packets[1..])
  }

  /** The parameter sets among the packets, in order. */
  function ParameterSets(packets: seq<Bytes>): seq<(Bytes, Bytes)> {
    if packets == [] then []
    else
      var r := Demux(packets[0]);
      (if r.Some? then ParameterSetsIn(r.value.tag) else []) + ParameterSets(packets[1..])
  }

  function SlicesIn(t: Tag): seq<Slice> { if t.AvcSlice? then [Slice(t.key, t.nal)] else [] }

  function SlicesOfTags(tags: seq<Tag>): seq<Slice> {
    if tags == [] then [] else SlicesIn(tags[0]) + SlicesOfTags(tags[1..])
  }

  function ParameterSetsIn(t: Tag): seq<(Bytes, Bytes)> { if t.AvcHeader? then [(t.sps, t.pps)] else [] }

  function ParameterSetsOfTags(tags: seq<Tag>): seq<(Bytes, Bytes)> {
    if tags == [] then [] else ParameterSetsIn(tags[0]) + ParameterSetsOfTags(tags[1..])
  }

  function AudioIn(t: Tag): seq<Tag> { if Kind(t) == 8 then [t] else [] }

  /** What the audio writer has contributed to a sequence of tags. */
  function AudioTags(tags: seq<Tag>): seq<Tag> {
    if tags == [] then [] else AudioIn(tags[0]) + AudioTags(tags[1..])
  }

  /** The audio tags among the packets, in order. */
  function Audio(packets: seq<Bytes>): seq<Tag> {
    if packets == [] then []
    else
      var r := Demux(packets[0]);
      (if r.Some? then AudioIn(r.value.tag) else []) + Audio(packets[1..])
  }

  lemma CarriedTagIsRead(packet: Bytes, t: Tag, ts: word, absTs: nat)
    requires Carries(packet, t, ts, absTs) && Fits(t)
    ensures Demux(packet) == Some(Received(t, ts, Low(absTs)))
  {
    hide TagBytes, Body, Demux;
    var n := FLV_TAG_HEAD_LEN + |Body(t)|;
    assert packet == TagBytes(t, ts, absTs) + packet[n..];
    DemuxUndoesTagBytes(t, ts, absTs, packet[n..]);
  }

  lemma {:induction false} PacketsAreRead(packets: seq<Bytes>, tags: seq<Tag>)
    requires CarryAll(packets, tags) && forall t :: t in tags ==> Fits(t)
    ensures Slices(packets) == SlicesOfTags(tags)
    ensures ParameterSets(packets) == ParameterSetsOfTags(tags)
    ensures Audio(packets) == AudioTags(tags)
  {
    hide Carries, Demux, Fits;
    if tags != [] {
      assert CarriesTag(packets[0], tags[0]);
      var ts, absTs :| Carries(packets[0], tags[0], ts, absTs);
      CarriedTagIsRead(packets[0], tags[0], ts, absTs);
      PacketsAreRead(packets[1..], tags[1..]);
    }
  }

  lemma {:induction false} ReadConcat(a: seq<Bytes>, b: seq<Bytes>)
    ensures Slices(a + b) == Slices(a) + Slices(b)
    ensures ParameterSets(a + b) == ParameterSets(a) + ParameterSets(b)
    ensures Audio(a + b) == Audio(a) + Audio(b)
  {
    if a == [] {
      assert a + b == b;
    } else {
      hide Demux, SlicesIn, ParameterSetsIn, AudioIn;
      ReadConcat(a[1..], b);
      assert (a + b)[1..] == a[1..] + b && (a + b)[0] == a[0];
      var r := Demux(a[0]);
      Regrouped(if r.Some? then SlicesIn(r.value.tag) else [], Slices(a[1..]), Slices(b));
      Regrouped(if r.Some? then ParameterSetsIn(r.value.tag) else [], ParameterSets(a[1..]), ParameterSets(b));
      Regrouped(if r.Some? then AudioIn(r.value.tag) else [], Audio(a[1..]), Audio(b));
    }
  }

  lemma CarryBoth(p: seq<Bytes>, s: seq<Tag>, q: seq<Bytes>, t: seq<Tag>)
    requires CarryAll(p, s) && CarryAll(q, t)
    ensures CarryAll(p + q, s + t)
  {
    hide CarriesTag;
  }

  /** What the video writer has contributed to a sequence of tags; both writers share one queue. */
  function VideoTags(tags: seq<Tag>): seq<Tag> {
    if tags == [] then [] else VideoIn(tags[0]) + VideoTags(tags[1..])
  }

  function VideoIn(t: Tag): seq<Tag> { if Kind(t) == 9 then [t] else [] }

  lemma {:induction false} VideoTagsConcat(a: seq<Tag>, b: seq<Tag>)
    ensures VideoTags(a + b) == VideoTags(a) + VideoTags(b)
  {
    if a == [] {
      assert a + b == b;
    } else {
      hide VideoIn;
      VideoTagsConcat(a[1..], b);
      assert (a + b)[1..] == a[1..] + b && (a + b)[0] == a[0];
      Regrouped(VideoIn(a[0]), VideoTags(a[1..]), VideoTags(b));
    }
  }

  lemma {:induction false} AudioTagsConcat(a: seq<Tag>, b: seq<Tag>)
    ensures AudioTags(a + b) == AudioTags(a) + AudioTags(b)
  {
    if a == [] {
      assert a + b == b;
    } else {
      hide AudioIn;
      AudioTagsConcat(a[1..], b);
      assert (a + b)[1..] == a[1..] + b && (a + b)[0] == a[0];
      Regrouped(AudioIn(a[0]), AudioTags(a[1..]), AudioTags(b));
    }
  }

  /** The video writer only contributes video. */
  lemma {:induction false} OnlyVideo(tags: seq<Tag>)
    requires forall t :: t in tags ==> Kind(t) == 9
    ensures VideoTags(tags) == tags && AudioTags(tags) == []
  {
    if tags != [] {
      OnlyVideo(tags[1..]);
    }
  }

  lemma {:induction false} WriteIsVideo(nals: seq<Bytes>, configured: bool)
    ensures forall t :: t in Write(nals, configured).tags ==> Kind(t) == 9
    decreases |nals|
  {
    hide IsSps, IsSlice;
    if nals != [] {
      if IsSps(nals[0]) && !configured {
        if |nals| > 1 {
          WriteIsVideo(nals[2..], true);
        }
      } else {
        WriteIsVideo(nals[1..], configured);
      }
    }
  }

  /** Audio in between changes nothing for the video. */
  lemma {:induction false} OnlyVideoCounts(tags: seq<Tag>)
    ensures SlicesOfTags(VideoTags(tags)) == SlicesOfTags(tags)
    ensures ParameterSetsOfTags(VideoTags(tags)) == ParameterSetsOfTags(tags)
    ensures forall t :: t in tags && Kind(t) == 9 ==> t in VideoTags(tags)
  {
    if tags != [] {
      var rest := tags[1..];
      OnlyVideoCounts(rest);
      if Kind(tags[0]) == 9 {
        assert ([tags[0]] + VideoTags(rest))[1..] == VideoTags(rest);
      } else {
        assert SlicesIn(tags[0]) == [] && ParameterSetsIn(tags[0]) == [];
        assert VideoTags(tags) == VideoTags(rest);
      }
    }
  }

  /** Video in between changes nothing for the audio. */
  lemma {:induction false} OnlyAudioCounts(tags: seq<Tag>)
    ensures forall t :: t in tags && Kind(t) == 8 ==> t in AudioTags(tags)
    ensures forall t :: t in AudioTags(tags) ==> t in tags && Kind(t) == 8
  {
    if tags != [] {
      OnlyAudioCounts(tags[1..]);
    }
  }

  /** The slices that should arrive: those of a list of units, with the key flag from the type of each. */
  function Expected(nals: seq<Bytes>): seq<Slice> {
    if nals == [] then [] else ExpectedOf(nals[0]) + Expected(nals[1..])
  }

  /** A unit of type 1 or 5. */
  function ExpectedOf(nal: Bytes): seq<Slice> {
    if nal != [] && (nal[0] % 32 == 1 || nal[0] % 32 == 5) then [Slice(nal[0] % 32 == 5, nal)] else []
  }

  /** The list without the unit that follows the first SPS, which travels in the sequence header. */
  function Unconsumed(nals: seq<Bytes>, configured: bool): seq<Bytes> {
    var k := FirstSps(nals);
    if configured || k + 1 >= |nals| then nals else nals[..k + 1] + nals[k + 2..]
  }

  lemma {:induction false} SlicesOfConcat(a: seq<Tag>, b: seq<Tag>)
    ensures SlicesOfTags(a + b) == SlicesOfTags(a) + SlicesOfTags(b)
  {
    if a == [] {
      assert a + b == b;
    } else {
      hide SlicesIn;
      SlicesOfConcat(a[1..], b);
      assert (a + b)[1..] == a[1..] + b && (a + b)[0] == a[0];
      Regrouped(SlicesIn(a[0]), SlicesOfTags(a[1..]), SlicesOfTags(b));
    }
  }

  lemma {:induction false} ParameterSetsOfConcat(a: seq<Tag>, b: seq<Tag>)
    ensures ParameterSetsOfTags(a + b) == ParameterSetsOfTags(a) + ParameterSetsOfTags(b)
  {
    if a == [] {
      assert a + b == b;
    } else {
      hide ParameterSetsIn;
      ParameterSetsOfConcat(a[1..], b);
      assert (a + b)[1..] == a[1..] + b && (a + b)[0] == a[0];
      Regrouped(ParameterSetsIn(a[0]), ParameterSetsOfTags(a[1..]), ParameterSetsOfTags(b));
    }
  }

  lemma {:induction false} ExpectedConcat(a: seq<Bytes>, b: seq<Bytes>)
    ensures Expected(a + b) == Expected(a) + Expected(b)
  {
    if a == [] {
      assert a + b == b;
    } else {
      hide ExpectedOf;
      ExpectedConcat(a[1..], b);
      assert (a + b)[1..] == a[1..] + b && (a + b)[0] == a[0];
      Regrouped(ExpectedOf(a[0]), Expected(a[1..]), Expected(b));
    }
  }

  lemma {:induction false} SliceTagsAsExpected(nals: seq<Bytes>)
    ensures SlicesOfTags(SliceTags(nals)) == Expected(nals)
    ensures ParameterSetsOfTags(SliceTags(nals)) == []
  {
    if nals != [] {
      SliceTagsAsExpected(nals[1..]);
      if IsSlice(nals[0]) {
        assert SliceTags(nals)[1..] == SliceTags(nals[1..]);
      } else {
        assert SliceTags(nals) == SliceTags(nals[1..]);
      }
    }
  }

  lemma HeaderBetweenSlices(front: seq<Bytes>, h: Tag, back: seq<Bytes>)
    requires h.AvcHeader?
    ensures var tags := SliceTags(front) + [h] + SliceTags(back);
            && SlicesOfTags(tags) == Expected(front + back)
            && ParameterSetsOfTags(tags) == [(h.sps, h.pps)]
  {
    hide SliceTags, SlicesOfTags, ParameterSetsOfTags, Expected;
    SliceTagsAsExpected(front);
    SliceTagsAsExpected(back);
    SlicesOfConcat(SliceTags(front) + [h], SliceTags(back));
    SlicesOfConcat(SliceTags(front), [h]);
    ParameterSetsOfConcat(SliceTags(front) + [h], SliceTags(back));
    ParameterSetsOfConcat(SliceTags(front), [h]);
    HeaderReads(h);
    ExpectedConcat(front, back);
  }

  /** The tags of one call, read as slices and parameter sets. */
  lemma WrittenContent(nals: seq<Bytes>, configured: bool)
    ensures var tags, k := Write(nals, configured).tags, FirstSps(nals);
            && SlicesOfTags(tags) == Expected(Unconsumed(nals, configured))
            && ParameterSetsOfTags(tags) == if configured || k + 1 >= |nals| then [] else [(nals[k], nals[k + 1])]
  {
    hide Write, SliceTags, IsSlice, IsSps, Expected, SlicesOfTags, ParameterSetsOfTags, HeaderTag;
    WriteShape(nals, configured);
    var k := FirstSps(nals);
    if configured || k + 1 >= |nals| {
      SliceTagsAsExpected(nals);
    } else {
      var front, back := nals[..k], nals[k + 2..];
      var h := HeaderTag(nals[k], nals[k + 1]);
      HeaderHolds(nals[k], nals[k + 1]);
      HeaderBetweenSlices(front, h, back);
      assert nals[..k + 1] == front + [nals[k]];
      SpsIsNotExpected(front, nals[k], back);
    }
  }

  lemma HeaderReads(h: Tag)
    requires h.AvcHeader?
    ensures SlicesOfTags([h]) == [] && ParameterSetsOfTags([h]) == [(h.sps, h.pps)]
  {
  }

  lemma HeaderHolds(sps: Bytes, pps: Bytes)
    ensures var h := HeaderTag(sps, pps); h.AvcHeader? && h.sps == sps && h.pps == pps
  {
  }

  lemma SpsIsNotExpected(front: seq<Bytes>, sps: Bytes, back: seq<Bytes>)
    requires IsSps(sps)
    ensures Expected(front + [sps] + back) == Expected(front + back)
  {
    assert Expected([sps]) == [];
    hide Expected, IsSps;
    ExpectedConcat(front, [sps]);
    ExpectedConcat(front + [sps], back);
    ExpectedConcat(front, back);
  }

  lemma OneExpected(nal: Bytes)
    ensures Expected([nal]) == ExpectedOf(nal) && |ExpectedOf(nal)| == if IsSlice(nal) then 1 else 0
  {
    if nal == [] {
      EmptyUnit();
    } else {
      KindsOfUnits(nal);
    }
    hide IsSlice;
    assert [nal][1..] == [];
  }

  /** A unit inserted into a list is expected exactly if it is a slice. */
  lemma OneMoreExpected(front: seq<Bytes>, nal: Bytes, back: seq<Bytes>)
    ensures Expected(front + [nal] + back) == Expected(front + back) <==> !IsSlice(nal)
  {
    OneExpected(nal);
    hide Expected, ExpectedOf, IsSlice;
    ExpectedConcat(front, [nal]);
    ExpectedConcat(front + [nal], back);
    ExpectedConcat(front, back);
    if ExpectedOf(nal) == [] {
      assert Expected(front) + [] + Expected(back) == Expected(front) + Expected(back);
    }
  }

  /** Every slice of a call arrives if and only if no slice follows directly on the SPS that is sent. */
  lemma AllSlicesArriveExactlyIf(nals: seq<Bytes>, configured: bool)
    ensures var k := FirstSps(nals);
            SlicesOfTags(Write(nals, configured).tags) == Expected(nals) <==>
            configured || k + 1 >= |nals| || !IsSlice(nals[k + 1])
  {
    hide Write, SlicesOfTags, Expected, IsSlice, IsSps;
    WrittenContent(nals, configured);
    var k := FirstSps(nals);
    if !configured && k + 1 < |nals| {
      OneMoreExpected(nals[..k + 1], nals[k + 1], nals[k + 2..]);
      assert nals == nals[..k + 1] + [nals[k + 1]] + nals[k + 2..];
    }
  }

  /** A slice that follows directly on the SPS is sent as if it were the PPS, and lost as a slice. */
  lemma SliceAfterSpsLost(sps: Bytes, slice: Bytes)
    requires IsSps(sps) && IsSlice(slice)
    ensures var nals, tags := [sps, slice], Write([sps, slice], false).tags;
            && Expected(nals) == ExpectedOf(slice) != []
            && SlicesOfTags(tags) == []
            && ParameterSetsOfTags(tags) == [(sps, slice)]
  {
    SpsIsNoSlice(sps);
    hide Write, Expected, IsSps, IsSlice, SlicesOfTags, ParameterSetsOfTags;
    var nals := [sps, slice];
    WrittenContent(nals, false);
    OneExpected(sps);
    OneExpected(slice);
    assert nals == [sps] + [slice] && Unconsumed(nals, false) == [sps];
    ExpectedConcat([sps], [slice]);
  }

  /** So with an SPS and a key frame of two bytes. */
  lemma KeyFrameLost()
    ensures var sps: Bytes, key: Bytes := [0x67, 0x42, 0, 0x1f], [0x65, 0x88];
            && Expected([sps, key]) == [Slice(true, key)]
            && SlicesOfTags(Write([sps, key], false).tags) == []
  {
    var sps: Bytes, key: Bytes := [0x67, 0x42, 0, 0x1f], [0x65, 0x88];
    assert IsSps(sps) && ExpectedOf(key) == [Slice(true, key)];
    hide Write, Expected, SlicesOfTags;
    SliceAfterSpsLost(sps, key);
  }

  /** And a buffer with one inter frame of two bytes is one tag, and one slice for the receiver. */
  lemma InterFrameArrives()
    ensures var buf, nal: Bytes := [0, 0, 0, 1, 0x41, 0x9A], [0x41, 0x9A];
            && Split(buf) == [nal]
            && Write(Split(buf), false) == Written([AvcSlice(false, nal)], false, true)
            && SlicesOfTags(Write(Split(buf), false).tags) == [Slice(false, nal)]
  {
    var nal: Bytes := [0x41, 0x9A];
    assert Join([nal]) == [0, 0, 0, 1, 0x41, 0x9A] by {
      assert [nal][1..] == [];
    }
    assert Free(nal);
    SplitUndoesJoin([nal]);
    assert IsSlice(nal) && !IsSps(nal) && SliceTag(nal) == AvcSlice(false, nal);
    SendsSlice([], nal, [], false);
    WritesNothing(false);
    assert [nal] + [] == [nal] && [] + [SliceTag(nal)] == [SliceTag(nal)];
  }

  /** From the encoder's units to the receiver's, through start codes, scanner, muxer and demultiplexer: every slice
      that is not consumed as the unit after the first SPS arrives, in order and byte for byte, marked as a key frame
      exactly if its type is 5; and the parameter sets that arrive are the first SPS and the unit after it. */
  lemma StreamRoundTrip(nals: seq<Bytes>, configured: bool, packets: seq<Bytes>)
    requires forall nal :: nal in nals ==> Free(nal)
    requires var tags := Write(Split(Join(nals)), configured).tags;
             CarryAll(packets, tags) && forall t :: t in tags ==> Fits(t)
    ensures Slices(packets) == Expected(Unconsumed(nals, configured))
    ensures var k := FirstSps(nals);
            ParameterSets(packets) == if configured || k + 1 >= |nals| then [] else [(nals[k], nals[k + 1])]
  {
    hide Write, Split, Join, Fits, Carries, Unconsumed, Expected;
    SplitUndoesJoin(nals);
    WrittenContent(nals, configured);
    PacketsAreRead(packets, Write(nals, configured).tags);
  }

  /** From any number of audio frames, a receiver reads the configuration in the first frame, then every later frame
      whole. */
  lemma AudioRoundTrip(frames: seq<Bytes>, packets: seq<Bytes>, i: nat)
    requires frames != [] && |frames[0]| >= 2 && i < |frames|
    requires var tags := WriteAudio(frames, false); CarryAll(packets, tags) && forall t :: t in tags ==> Fits(t)
    ensures var r := Demux(packets[i]);
            r.Some? && r.value.tag == if i == 0 then AacHeader(frames[0][..2]) else AacFrame(frames[i])
  {
    hide Demux, Carries, Fits;
    var t := WriteAudio(frames, false)[i];
    assert CarriesTag(packets[i], t);
    var ts, absTs :| Carries(packets[i], t, ts, absTs);
    CarriedTagIsRead(packets[i], t, ts, absTs);
    AudioShape(frames, false, i);
  }
}
