/** What the video writer makes of a list of NAL units, as a fold with one bit of state, and what that amounts to. */
module Mux {
  import opened Bytes
  import opened AnnexB
  import opened FlvTag

  const SPS_BYTE: byte := 0x67

  /** Byte `k` of a unit as the writer reads it: it may look past the end, into the start code that follows. */
  function Peek(nal: Bytes, k: nat): byte
    requires k < |nal| + 4
  {
    if k < |nal| then nal[k] else START_CODE[k - |nal|]
  }

  predicate IsSps(nal: Bytes) { Peek(nal, 0) == SPS_BYTE }

  predicate IsKeySlice(nal: Bytes) { Peek(nal, 0) % 32 == 5 }

  predicate IsInterSlice(nal: Bytes) { Peek(nal, 0) % 32 == 1 }

  predicate IsSlice(nal: Bytes) { IsKeySlice(nal) || IsInterSlice(nal) }

  /** Which units are what, by their first byte. */
  lemma KindsOfUnits(nal: Bytes)
    requires nal != []
    ensures IsSps(nal) <==> nal[0] == 0x67
    ensures IsSlice(nal) <==> nal[0] % 32 == 1 || nal[0] % 32 == 5
    ensures IsKeySlice(nal) <==> nal[0] % 32 == 5
  {
  }

  /** An empty unit is neither: the byte behind it is the first zero of a start code. */
  lemma EmptyUnit()
    ensures !IsSps([]) && !IsSlice([])
  {
  }

  /** The profile bytes are the three bytes after the first of the SPS. */
  lemma HeaderTagOpened(sps: Bytes, pps: Bytes)
    requires |sps| >= 4
    ensures HeaderTag(sps, pps) == AvcHeader([sps[1], sps[2], sps[3]], sps, pps)
  {
  }

  /** A call returns 0 if it has sent something and has not given up, otherwise -1. */
  lemma CodeOpened(w: Written)
    ensures w.Code() == 0 <==> w.complete && w.tags != []
    ensures w.Code() == -1 <==> !w.complete || w.tags == []
  {
  }

  function HeaderTag(sps: Bytes, pps: Bytes): Tag {
    AvcHeader([Peek(sps, 1), Peek(sps, 2), Peek(sps, 3)], sps, pps)
  }

  function SliceTag(nal: Bytes): Tag { AvcSlice(IsKeySlice(nal), nal) }

  /** The tags of one call, the configuration bit after it, and whether the call got to its end: it gives up when an SPS
      that should be sent is the last unit. */
  datatype Written = Written(tags: seq<Tag>, configured: bool, complete: bool) {
    function Push(t: Tag): Written { Written([t] + tags, configured, complete) }

    /** RTMP_OK or RTMP_ERROR. */
    function Code(): int { if complete && tags != [] then 0 else -1 }
  }

  function Write(nals: seq<Bytes>, configured: bool): Written
    decreases |nals|
  {
    if nals == [] then Written([], configured, true)
    else if IsSps(nals[0]) then
      if configured then Write(nals[1..], true)
      else if |nals| == 1 then Written([], false, false)
      else Write(nals[2..], true).Push(HeaderTag(nals[0], nals[1]))
    else if IsSlice(nals[0]) then Write(nals[1..], configured).Push(SliceTag(nals[0]))
    else Write(nals[1..], configured)
  }

  /** A call in progress: the tags already sent, then what is left to do. */
  function After(done: seq<Tag>, rest: Written): Written { Written(done + rest.tags, rest.configured, rest.complete) }

  lemma SendsHeader(done: seq<Tag>, sps: Bytes, pps: Bytes, rest: seq<Bytes>)
    requires IsSps(sps)
    ensures After(done, Write([sps] + ([pps] + rest), false)) == After(done + [HeaderTag(sps, pps)], Write(rest, true))
  {
    hide HeaderTag, IsSps;
    assert ([sps] + ([pps] + rest))[2..] == rest;
  }

  lemma SendsSlice(done: seq<Tag>, nal: Bytes, rest: seq<Bytes>, configured: bool)
    requires !IsSps(nal) && IsSlice(nal)
    ensures After(done, Write([nal] + rest, configured)) == After(done + [SliceTag(nal)], Write(rest, configured))
  {
    hide SliceTag, IsSps, IsSlice;
    assert ([nal] + rest)[1..] == rest;
  }

  lemma SendsNothing(nal: Bytes, rest: seq<Bytes>, configured: bool)
    requires if IsSps(nal) then configured else !IsSlice(nal)
    ensures Write([nal] + rest, configured) == Write(rest, configured)
  {
    assert ([nal] + rest)[1..] == rest;
  }

  lemma WritesNothing(configured: bool)
    ensures Write([], configured) == Written([], configured, true)
  {
  }

  lemma GivesUp(sps: Bytes)
    requires IsSps(sps)
    ensures Write([sps], false) == Written([], false, false)
  {
  }

  // ---------------------------------------------------- what the fold amounts to

  /** The tags of all slices of a list, in order. */
  function SliceTags(nals: seq<Bytes>): seq<Tag> {
    if nals == [] then []
    else (if IsSlice(nals[0]) then [SliceTag(nals[0])] else []) + SliceTags(nals[1..])
  }

  /** The position of the first SPS; the length of the list if there is none. */
  function FirstSps(nals: seq<Bytes>): (k: nat)
    ensures k <= |nals|
    ensures k < |nals| ==> IsSps(nals[k])
    ensures forall i :: 0 <= i < k ==> !IsSps(nals[i])
  {
    if nals == [] || IsSps(nals[0]) then 0 else 1 + FirstSps(nals[1..])
  }

  lemma SpsIsNoSlice(nal: Bytes)
    requires IsSps(nal)
    ensures !IsSlice(nal) && SliceTags([nal]) == []
  {
  }

  lemma {:induction false} ConfiguredWritesSlices(nals: seq<Bytes>)
    ensures Write(nals, true) == Written(SliceTags(nals), true, true)
    decreases |nals|
  {
    if nals != [] {
      ConfiguredWritesSlices(nals[1..]);
    }
  }

  lemma {:induction false} SliceTagsConcat(a: seq<Bytes>, b: seq<Bytes>)
    ensures SliceTags(a + b) == SliceTags(a) + SliceTags(b)
  {
    if a == [] {
      assert a + b == b;
    } else {
      hide IsSlice, SliceTag;
      SliceTagsConcat(a[1..], b);
      assert (a + b)[1..] == a[1..] + b && (a + b)[0] == a[0];
      Regrouped(if IsSlice(a[0]) then [SliceTag(a[0])] else [], SliceTags(a[1..]), SliceTags(b));
    }
  }

  /** Before the first SPS, only slices are sent. */
  lemma {:induction false} NoSpsYet(front: seq<Bytes>, back: seq<Bytes>)
    requires forall nal :: nal in front ==> !IsSps(nal)
    ensures Write(front + back, false) == After(SliceTags(front), Write(back, false))
    decreases |front|
  {
    hide IsSps, IsSlice, SliceTag, HeaderTag;
    if front == [] {
      assert front + back == back;
    } else {
      NoSpsYet(front[1..], back);
      assert (front + back)[1..] == front[1..] + back && (front + back)[0] == front[0];
    }
  }

  /** The first SPS is sent as a sequence header together with the unit after it, whatever that is; every slice other
      than that unit is sent, in order and byte for byte; every later SPS, and everything else, is dropped. */
  lemma WriteShape(nals: seq<Bytes>, configured: bool)
    ensures var k, w := FirstSps(nals), Write(nals, configured);
            if configured || k == |nals| then w == Written(SliceTags(nals), configured, true)
            else if k + 1 == |nals| then w == Written(SliceTags(nals), false, false)
            else
              var header := HeaderTag(nals[k], nals[k + 1]);
              w == Written(SliceTags(nals[..k]) + [header] + SliceTags(nals[k + 2..]), true, true)
  {
    hide Write, SliceTags, IsSps, IsSlice, HeaderTag;
    if configured {
      ConfiguredWritesSlices(nals);
    } else {
      var k := FirstSps(nals);
      var front, back := nals[..k], nals[k..];
      assert nals == front + back;
      NoSpsYet(front, back);
      if k == |nals| {
        assert front == nals && back == [];
        WritesNothing(false);
      } else if k + 1 == |nals| {
        assert back == [nals[k]];
        GivesUp(nals[k]);
        SliceTagsConcat(front, [nals[k]]);
        SpsIsNoSlice(nals[k]);
      } else {
        var rest := nals[k + 2..];
        assert back == [nals[k]] + ([nals[k + 1]] + rest);
        SendsHeader(SliceTags(front), nals[k], nals[k + 1], rest);
        ConfiguredWritesSlices(rest);
      }
    }
  }

  // ------------------------------------------------------------- many frames

  /** Several calls, one after the other, from one configuration bit to the next. */
  function WriteFrames(frames: seq<seq<Bytes>>, configured: bool): Written
    decreases |frames|
  {
    if frames == [] then Written([], configured, true)
    else
      var w := Write(frames[0], configured);
      var rest := WriteFrames(frames[1..], w.configured);
      Written(w.tags + rest.tags, rest.configured, w.complete && rest.complete)
  }

  lemma {:induction false} WriteFramesAppend(frames: seq<seq<Bytes>>, last: seq<Bytes>, configured: bool)
    ensures var w := WriteFrames(frames, configured);
            var more := Write(last, w.configured);
            WriteFrames(frames + [last], configured)
            == Written(w.tags + more.tags, more.configured, w.complete && more.complete)
    decreases |frames|
  {
    hide Write;
    if frames == [] {
      assert frames + [last] == [last] && [last][1..] == [];
    } else {
      var first := Write(frames[0], configured);
      WriteFramesAppend(frames[1..], last, first.configured);
      assert (frames + [last])[1..] == frames[1..] + [last] && (frames + [last])[0] == frames[0];
      Regrouped(first.tags, WriteFrames(frames[1..], first.configured).tags,
                Write(last, WriteFrames(frames[1..], first.configured).configured).tags);
    }
  }

  function HeadersIn(t: Tag): seq<Tag> { if t.AvcHeader? then [t] else [] }

  function Headers(tags: seq<Tag>): seq<Tag> {
    if tags == [] then [] else HeadersIn(tags[0]) + Headers(tags[1..])
  }

  lemma {:induction false} HeadersConcat(a: seq<Tag>, b: seq<Tag>)
    ensures Headers(a + b) == Headers(a) + Headers(b)
  {
    if a == [] {
      assert a + b == b;
    } else {
      hide HeadersIn;
      HeadersConcat(a[1..], b);
      assert (a + b)[1..] == a[1..] + b && (a + b)[0] == a[0];
      Regrouped(HeadersIn(a[0]), Headers(a[1..]), Headers(b));
    }
  }

  lemma {:induction false} SlicesHaveNoHeader(nals: seq<Bytes>)
    ensures Headers(SliceTags(nals)) == []
  {
    if nals != [] {
      SlicesHaveNoHeader(nals[1..]);
      HeadersConcat(if IsSlice(nals[0]) then [SliceTag(nals[0])] else [], SliceTags(nals[1..]));
    }
  }

  /** A call that starts unconfigured writes a sequence header exactly when it leaves the configuration bit set. */
  lemma HeaderSetsTheBit(nals: seq<Bytes>, configured: bool)
    ensures var w := Write(nals, configured);
            && |Headers(w.tags)| == (if w.configured && !configured then 1 else 0)
            && (configured ==> w.configured)
  {
    hide Write, SliceTags, Headers, HeaderTag;
    WriteShape(nals, configured);
    var k := FirstSps(nals);
    if configured || k + 1 >= |nals| {
      SlicesHaveNoHeader(nals);
    } else {
      OneHeader(nals[..k], nals[k], nals[k + 1], nals[k + 2..]);
    }
  }

  lemma OneHeader(front: seq<Bytes>, sps: Bytes, pps: Bytes, back: seq<Bytes>)
    ensures Headers(SliceTags(front) + [HeaderTag(sps, pps)] + SliceTags(back)) == [HeaderTag(sps, pps)]
  {
    var h := HeaderTag(sps, pps);
    assert Headers([h]) == [h];
    hide Headers, SliceTags, HeaderTag;
    SlicesHaveNoHeader(front);
    SlicesHaveNoHeader(back);
    HeadersConcat(SliceTags(front) + [h], SliceTags(back));
    HeadersConcat(SliceTags(front), [h]);
  }

  /** However many frames are written, at most one sequence header is sent, and none once the bit is set. */
  lemma {:induction false} OneHeaderInAll(frames: seq<seq<Bytes>>, configured: bool)
    ensures var w := WriteFrames(frames, configured);
            && |Headers(w.tags)| == (if w.configured && !configured then 1 else 0)
            && (configured ==> w.configured)
    decreases |frames|
  {
    if frames != [] {
      var w := Write(frames[0], configured);
      HeaderSetsTheBit(frames[0], configured);
      OneHeaderInAll(frames[1..], w.configured);
      HeadersConcat(w.tags, WriteFrames(frames[1..], w.configured).tags);
    }
  }

  // -------------------------------------------------------------------- audio

  /** The tag of one audio frame; the first frame only gives its first two bytes, as the AudioSpecificConfig. */
  function AudioTag(data: Bytes, configured: bool): Tag
    requires configured || |data| >= 2
  {
    if configured then AacFrame(data) else AacHeader(data[..2])
  }

  /** Frame after frame; the configuration bit is set by the first. */
  function WriteAudio(frames: seq<Bytes>, configured: bool): (tags: seq<Tag>)
    requires configured || frames == [] || |frames[0]| >= 2
    ensures |tags| == |frames|
    decreases |frames|
  {
    if frames == [] then [] else [AudioTag(frames[0], configured)] + WriteAudio(frames[1..], true)
  }

  lemma {:induction false} WriteAudioAppend(frames: seq<Bytes>, last: Bytes, configured: bool)
    requires configured || |(frames + [last])[0]| >= 2
    ensures WriteAudio(frames + [last], configured)
         == WriteAudio(frames, configured) + [AudioTag(last, configured || frames != [])]
    decreases |frames|
  {
    if frames != [] {
      WriteAudioAppend(frames[1..], last, true);
      assert (frames + [last])[1..] == frames[1..] + [last];
    } else {
      assert frames + [last] == [last] && [last][1..] == [];
    }
  }

  /** One header, then every later frame whole. */
  lemma {:induction false} AudioShape(frames: seq<Bytes>, configured: bool, i: nat)
    requires (configured || frames == [] || |frames[0]| >= 2) && i < |frames|
    ensures WriteAudio(frames, configured)[i]
         == if i == 0 && !configured then AacHeader(frames[0][..2]) else AacFrame(frames[i])
    decreases i
  {
    if i > 0 {
      AudioShape(frames[1..], true, i - 1);
    }
  }
}
