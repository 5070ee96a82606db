/** The two frame writers of `rtmp_core.c`: they fill freshly allocated packets byte by byte and queue them. */
module RtmpSender {
  import opened Bytes
  import opened Words
  import opened AnnexB
  import opened FlvTag
  import opened LinkedQueue
  import Mux

  const RTMP_OK: int := 0
  const RTMP_ERROR: int := -1

  // ---------------------------------------------------------- filling a packet

  /** A run of `output[offset++] = ...` statements, or a memcpy followed by `offset += len`. */
  method Put(output: array<byte>, offset: nat, bytes: Bytes) returns (next: nat)
    requires offset + |bytes| <= output.Length
    modifies output
    ensures next == offset + |bytes|
    ensures output[..next] == old(output[..offset]) + bytes
    ensures output[next..] == old(output[next..])
  {
    CopyInto(output, offset, bytes);
    next := offset + |bytes|;
    ghost var after := output[..];
    assert output[..next] == after[..next] && output[next..] == after[next..];
  }

  method PutHeader(output: array<byte>, kind: byte, bodyLen: nat, ts: word, absTs: nat) returns (offset: nat)
    requires output.Length >= FLV_TAG_HEAD_LEN
    modifies output
    ensures offset == FLV_TAG_HEAD_LEN && output[..offset] == Header(kind, bodyLen, ts, absTs)
  {
    offset := Put(output, 0, [kind]);
    offset := Put(output, offset, Be24(bodyLen));
    offset := Put(output, offset, Be24(ts));
    offset := Put(output, offset, [Low(ts / 0x100_0000), Low(absTs), 0, 0]);
  }

  /** `output` holds exactly the bytes of a tag; its last four bytes are whatever the allocation left there. */
  ghost predicate HoldsTag(output: array<byte>, t: Tag, ts: word, absTs: nat)
    reads output
  {
    && output.Length == FLV_TAG_HEAD_LEN + |Body(t)| + FLV_PRE_TAG_LEN
    && output[..FLV_TAG_HEAD_LEN + |Body(t)|] == TagBytes(t, ts, absTs)
  }

  lemma AvcHeaderParts(h: Bytes, profile: Triple, sps: Bytes, pps: Bytes)
    ensures var t := AvcHeader(profile, sps, pps);
            && |Body(t)| == |sps| + |pps| + 16
            && h + ([0x17, 0, 0, 0, 0, 1] + profile + ([0xff, 0xe1] + Be16(|sps|))) + sps + ([1] + Be16(|pps|)) + pps
              == h + Body(t)
  {
    hide Be16;
  }

  method AvcHeaderPacket(data: Bytes, nal: Extent, nalN: Extent, ts: word, absTs: nat)
      returns (output: array<byte>, bodyLen: nat)
    requires nal.start <= nal.end && nal.end + 4 <= nalN.start <= nalN.end <= |data|
    ensures fresh(output) && output.Length == bodyLen + FLV_TAG_HEAD_LEN + FLV_PRE_TAG_LEN
    ensures HoldsTag(output, AvcHeader(data[nal.start + 1..nal.start + 4], data[nal.start..nal.end],
                                       data[nalN.start..nalN.end]), ts, absTs)
  {
    hide Header, Body, Be16;
    var sps, pps := data[nal.start..nal.end], data[nalN.start..nalN.end];
    var profile := [data[nal.start + 1], data[nal.start + 2], data[nal.start + 3]];
    bodyLen := |sps| + |pps| + 16;
    output := new byte[bodyLen + FLV_TAG_HEAD_LEN + FLV_PRE_TAG_LEN];
    var offset := PutHeader(output, 9, bodyLen, ts, absTs);
    offset := Put(output, offset, [0x17, 0, 0, 0, 0, 1] + profile + ([0xff, 0xe1] + Be16(|sps|)));
    offset := Put(output, offset, sps);
    offset := Put(output, offset, [1] + Be16(|pps|));
    offset := Put(output, offset, pps);
    AvcHeaderParts(Header(9, bodyLen, ts, absTs), profile, sps, pps);
    assert profile == data[nal.start + 1..nal.start + 4];
  }

  /** Both slice layouts; they differ in the first byte of the body. */
  method AvcSlicePacket(data: Bytes, nal: Extent, key: bool, ts: word, absTs: nat)
      returns (output: array<byte>, bodyLen: nat)
    requires nal.start <= nal.end <= |data|
    ensures fresh(output) && output.Length == bodyLen + FLV_TAG_HEAD_LEN + FLV_PRE_TAG_LEN
    ensures HoldsTag(output, AvcSlice(key, data[nal.start..nal.end]), ts, absTs)
  {
    hide Header;
    var unit := data[nal.start..nal.end];
    ghost var t := AvcSlice(key, unit);
    bodyLen := |unit| + 5 + 4;
    output := new byte[bodyLen + FLV_TAG_HEAD_LEN + FLV_PRE_TAG_LEN];
    var offset := PutHeader(output, 9, bodyLen, ts, absTs);
    offset := Put(output, offset, [if key then 0x17 else 0x27, 1, 0, 0, 0]);
    offset := Put(output, offset, Be32(|unit|));
    offset := Put(output, offset, unit);
    assert |Body(t)| == bodyLen;
    assert output[..offset] == Header(9, bodyLen, ts, absTs) + Body(t);
  }

  method AudioPacket(packetType: byte, payload: Bytes, ts: word, absTs: nat) returns (output: array<byte>, bodyLen: nat)
    requires packetType == 1 || (packetType == 0 && |payload| == 2)
    ensures fresh(output) && output.Length == bodyLen + FLV_TAG_HEAD_LEN + FLV_PRE_TAG_LEN
    ensures HoldsTag(output, if packetType == 0 then AacHeader(payload) else AacFrame(payload), ts, absTs)
  {
    hide Header;
    bodyLen := 2 + |payload|;
    output := new byte[bodyLen + FLV_TAG_HEAD_LEN + FLV_PRE_TAG_LEN];
    var offset := PutHeader(output, 8, bodyLen, ts, absTs);
    offset := Put(output, offset, [AUDIO_TAG_HEADER, packetType]);
    offset := Put(output, offset, payload);
    ghost var t := if packetType == 0 then AacHeader(payload) else AacFrame(payload);
    assert |Body(t)| == bodyLen;
    assert output[..offset] == Header(8, bodyLen, ts, absTs) + Body(t);
  }

  // --------------------------------------------------------- scanning a buffer

  /** What the writer reads at a unit is what `Mux.Peek` says, also beyond the unit's end if a start code follows it. */
  lemma PeekInBuffer(b: Bytes, q: nat, k: nat)
    requires q <= |b| && k < NextCode(b, q) - q + (if NextCode(b, q) < |b| then 4 else 0)
    ensures q + k < |b| && b[q + k] == Mux.Peek(b[q..NextCode(b, q)], k)
  {
    hide NextCode;
  }

  /** The last unit is empty only if the buffer ends in a start code. */
  lemma UnitsNotEmptyAtEnd(b: Bytes, from: nat)
    requires from <= |b| && !(|b| >= 4 && IsStartCode(b, |b| - 4)) && NextCode(b, from) < |b|
    ensures NextCode(b, from) + 4 < |b|
  {
    hide NextCode;
  }

  // ------------------------------------------------------------------ the sender

  /** The packets hold the tags, one each, in order, and their recorded sizes are right. */
  ghost predicate HoldTags(items: seq<Item<array<byte>>>, tags: seq<Tag>, ts: word, absTs: nat)
    reads set i | 0 <= i < |items| :: items[i].data
  {
    && |items| == |tags|
    && forall i :: 0 <= i < |items| ==>
         items[i].size == items[i].data.Length && HoldsTag(items[i].data, tags[i], ts, absTs)
  }

  /** The buffers that the video writer can read without running over their end. */
  predicate Writable(b: Bytes) { |b| >= 3 && !(|b| >= 4 && IsStartCode(b, |b| - 4)) }

  /** The state the writers share with the pushing thread. */
  class Sender {
    const queue: LinkedQueue<array<byte>>
    var videoConfigOk: bool
    var audioConfigOk: bool

    constructor ()
      ensures queue.Valid() && fresh(queue) && fresh(queue.Repr()) && queue.contents == []
      ensures !videoConfigOk && !audioConfigOk
    {
      queue := new LinkedQueue<array<byte>>();
      videoConfigOk, audioConfigOk := false, false;
    }

    /** The packets queued behind the first `from` ones hold the tags. */
    ghost predicate Queued(from: nat, tags: seq<Tag>, ts: word, absTs: nat)
      reads queue, set i | 0 <= i < |queue.contents| :: queue.contents[i].data
    {
      from <= |queue.contents| && HoldTags(queue.contents[from..], tags, ts, absTs)
    }

    /** `push_data` of a finished packet. */
    method Submit(output: array<byte>, size: int, ghost from: nat, ghost done: seq<Tag>, ghost t: Tag, ghost ts: word,
                  ghost absTs: nat)
      returns (val: int)
      requires queue.Valid() && Queued(from, done, ts, absTs)
      requires HoldsTag(output, t, ts, absTs) && size == output.Length
      modifies queue.Repr()
      ensures queue.Valid() && fresh(queue.Repr() - old(queue.Repr()))
      ensures old(queue.contents) <= queue.contents && val > 0
      ensures Queued(from, done + [t], ts, absTs)
    {
      hide HoldsTag, LinkedQueue.Valid;
      ghost var before := queue.contents[from..];
      val := queue.Push(output, size);
      assert queue.contents[from..] == before + [Item(output, size)];
    }

    method SubmitSlice(buf: Bytes, nal: Extent, key: bool, ts: word, absTs: nat, ghost from: nat, ghost done: seq<Tag>)
      returns (val: int)
      requires queue.Valid() && Queued(from, done, ts, absTs) && nal.start <= nal.end <= |buf|
      modifies queue.Repr()
      ensures queue.Valid() && fresh(queue.Repr() - old(queue.Repr()))
      ensures old(queue.contents) <= queue.contents && val > 0
      ensures Queued(from, done + [AvcSlice(key, buf[nal.start..nal.end])], ts, absTs)
    {
      hide HoldsTag, LinkedQueue.Valid, TagBytes;
      var output, size := AvcSlicePacket(buf, nal, key, ts, absTs);
      val := Submit(output, size + FLV_TAG_HEAD_LEN + FLV_PRE_TAG_LEN, from, done,
                    AvcSlice(key, buf[nal.start..nal.end]), ts, absTs);
    }

    method SubmitHeader(buf: Bytes, nal: Extent, nalN: Extent, ts: word, absTs: nat, ghost from: nat,
                        ghost done: seq<Tag>)
      returns (val: int)
      requires queue.Valid() && Queued(from, done, ts, absTs)
      requires nal.start <= nal.end && nal.end + 4 <= nalN.start <= nalN.end <= |buf|
               && nal.end == NextCode(buf, nal.start)
      modifies this`videoConfigOk, queue.Repr()
      ensures queue.Valid() && fresh(queue.Repr() - old(queue.Repr()))
      ensures old(queue.contents) <= queue.contents && val > 0 && videoConfigOk
      ensures Queued(from, done + [Mux.HeaderTag(buf[nal.start..nal.end], buf[nalN.start..nalN.end])], ts, absTs)
    {
      hide HoldsTag, LinkedQueue.Valid, TagBytes, NextCode;
      var output, size := AvcHeaderPacket(buf, nal, nalN, ts, absTs);
      ProfileInBuffer(buf, nal.start, buf[nalN.start..nalN.end]);
      val := Submit(output, size + FLV_TAG_HEAD_LEN + FLV_PRE_TAG_LEN, from, done,
                    Mux.HeaderTag(buf[nal.start..nal.end], buf[nalN.start..nalN.end]), ts, absTs);
      videoConfigOk := true;
    }

    /** One turn of the video writer's loop, for the unit `nal` that ends at `offset0`: the new offset and `val`, or no
        offset if the writer gives up. */
    method WriteUnit(buf: Bytes, nal: Extent, offset0: nat, val0: int, ts: word, absTs: nat, ghost from: nat,
                     ghost done0: seq<Tag>)
      returns (offset: Option<nat>, val: int, ghost done: seq<Tag>)
      requires queue.Valid() && Queued(from, done0, ts, absTs) && (val0 > 0 <==> done0 != [])
      requires 3 <= |buf| && nal.start < |buf| && nal.start <= nal.end == offset0 <= |buf|
               && offset0 == NextCode(buf, nal.start)
      modifies this`videoConfigOk, queue.Repr()
      ensures queue.Valid() && fresh(queue.Repr() - old(queue.Repr()))
      ensures old(queue.contents) <= queue.contents && (val > 0 <==> done != [])
      ensures Queued(from, done, ts, absTs)
      ensures offset.Some? ==> offset0 <= offset.value <= |buf|
      ensures var all := Mux.Write([buf[nal.start..nal.end]] + SplitFrom(buf, offset0), old(videoConfigOk));
              Mux.After(done0, all)
                == Mux.After(done, if offset.Some? then Mux.Write(SplitFrom(buf, offset.value), videoConfigOk)
                                                       else Mux.Written([], videoConfigOk, false))
    {
      hide NextCode, Units, SplitFrom, Header, Body, TagBytes, IsStartCode, Mux.Write, HoldsTag, LinkedQueue.Valid,
        Mux.Peek, Mux.HeaderTag, Mux.SliceTag;
      var q := nal.start;
      ghost var unit := buf[q..nal.end];
      val, done := val0, done0;
      PeekInBuffer(buf, q, 0);
      SliceTagOf(unit);
      if buf[q] == 0x67 {
        if videoConfigOk {
          Mux.SendsNothing(unit, SplitFrom(buf, offset0), true);
          return Some(offset0), val, done;
        }
        SplitFromStep(buf, offset0);
        var nalN, nextN := GetNal(buf, offset0);
        if nalN == None {
          Mux.GivesUp(unit);
          assert [unit] + [] == [unit];
          return None, val, done;
        }
        ghost var pps := buf[nalN.value.start..nextN];
        val := SubmitHeader(buf, nal, nalN.value, ts, absTs, from, done);
        Mux.SendsHeader(done, unit, pps, SplitFrom(buf, nextN));
        return Some(nextN), val, done + [Mux.HeaderTag(unit, pps)];
      }
      if buf[q] % 32 == 5 {
        val := SubmitSlice(buf, nal, true, ts, absTs, from, done);
        Mux.SendsSlice(done, unit, SplitFrom(buf, offset0), videoConfigOk);
        return Some(offset0), val, done + [Mux.SliceTag(unit)];
      }
      if buf[q] % 32 == 1 {
        val := SubmitSlice(buf, nal, false, ts, absTs, from, done);
        Mux.SendsSlice(done, unit, SplitFrom(buf, offset0), videoConfigOk);
        return Some(offset0), val, done + [Mux.SliceTag(unit)];
      }
      Mux.SendsNothing(unit, SplitFrom(buf, offset0), videoConfigOk);
      return Some(offset0), val, done;
    }

    /** The loop of the video writer: it ends at the end of the buffer, or gives up. */
    method WriteUnits(buf: Bytes, ts: word, absTs: nat, ghost from: nat)
        returns (complete: bool, val: int, ghost done: seq<Tag>)
      requires queue.Valid() && Queued(from, [], ts, absTs)
      requires |buf| >= 3 && !(|buf| >= 4 && IsStartCode(buf, |buf| - 4))
      modifies this`videoConfigOk, queue.Repr()
      ensures queue.Valid() && fresh(queue.Repr() - old(queue.Repr()))
      ensures old(queue.contents) <= queue.contents && (val > 0 <==> done != [])
      ensures Queued(from, done, ts, absTs)
      ensures Mux.Write(Split(buf), old(videoConfigOk)) == Mux.Written(done, videoConfigOk, complete)
    {
      hide NextCode, Units, SplitFrom, Header, Body, TagBytes, IsStartCode, Mux.Write, HoldsTag, LinkedQueue.Valid;
      var offset := 0;
      val, done := 0, [];
      ghost var w := Mux.Write(Split(buf), videoConfigOk);
      while true
        invariant offset <= |buf|
        invariant queue.Valid() && fresh(queue.Repr() - old(queue.Repr()))
        invariant old(queue.contents) <= queue.contents && (val > 0 <==> done != [])
        invariant Queued(from, done, ts, absTs)
        invariant w == Mux.After(done, Mux.Write(SplitFrom(buf, offset), videoConfigOk))
        decreases |buf| - offset
      {
        SplitFromStep(buf, offset);
        var nal, next := GetNal(buf, offset);
        if nal == None {
          Mux.WritesNothing(videoConfigOk);
          return true, val, done;
        }
        UnitsNotEmptyAtEnd(buf, offset);
        var after;
        after, val, done := WriteUnit(buf, nal.value, next, val, ts, absTs, from, done);
        if after == None {
          return false, val, done;
        }
        offset := after.value;
      }
    }

    /** `rtmp_sender_write_video_frame`. The source reads out of bounds if the buffer is shorter than three bytes, or
        ends in a start code. None is its NULL. */
    method WriteVideoFrame(data: Option<Bytes>, ts: word, absTs: nat) returns (code: int)
      requires queue.Valid()
      requires data.Some? ==> Writable(data.value)
      modifies this`videoConfigOk, queue.Repr()
      ensures queue.Valid() && fresh(queue.Repr() - old(queue.Repr()))
      ensures old(queue.contents) <= queue.contents
      ensures data.None?
              ==> code == RTMP_ERROR && queue.contents == old(queue.contents) && videoConfigOk == old(videoConfigOk)
      ensures data.Some? ==>
                var w := Mux.Write(Split(data.value), old(videoConfigOk));
                && videoConfigOk == w.configured
                && code == w.Code()
                && Queued(|old(queue.contents)|, w.tags, ts, absTs)
    {
      hide Split, Mux.Write, LinkedQueue.Valid, IsStartCode, HoldsTag;
      if data.None? {
        return RTMP_ERROR;
      }
      ghost var from := |queue.contents|;
      NothingQueued(ts, absTs);
      ghost var done;
      var complete, val;
      complete, val, done := WriteUnits(data.value, ts, absTs, from);
      if !complete {
        return RTMP_ERROR;
      }
      return if val > 0 then RTMP_OK else RTMP_ERROR;
    }

    /** `rtmp_sender_write_audio_frame`: the first frame only gives its first two bytes, as the AudioSpecificConfig;
        every later frame is sent whole. The source reads two bytes of the first frame whatever its size. */
    method WriteAudioFrame(connected: bool, data: Option<Bytes>, ts: word, absTs: nat) returns (code: int)
      requires queue.Valid()
      requires connected && data.Some? && !audioConfigOk ==> |data.value| >= 2
      modifies this`audioConfigOk, queue.Repr()
      ensures queue.Valid() && fresh(queue.Repr() - old(queue.Repr()))
      ensures old(queue.contents) <= queue.contents
      ensures if !connected || data.None?
              then code == RTMP_ERROR && queue.contents == old(queue.contents) && audioConfigOk == old(audioConfigOk)
              else code == RTMP_OK && audioConfigOk &&
                   Queued(|old(queue.contents)|, [Mux.AudioTag(data.value, old(audioConfigOk))], ts, absTs)
    {
      hide LinkedQueue.Valid, HoldsTag;
      if !connected {
        return RTMP_ERROR;
      }
      if data.None? {
        return RTMP_ERROR;
      }
      ghost var from := |queue.contents|;
      NothingQueued(ts, absTs);
      var val;
      if !audioConfigOk {
        var output, size := AudioPacket(0, data.value[..2], ts, absTs);
        val := Submit(output, size + FLV_TAG_HEAD_LEN + FLV_PRE_TAG_LEN, from, [], AacHeader(data.value[..2]), ts,
                      absTs);
        assert [] + [AacHeader(data.value[..2])] == [AacHeader(data.value[..2])];
        audioConfigOk := true;
      } else {
        var output, size := AudioPacket(1, data.value, ts, absTs);
        val := Submit(output, size + FLV_TAG_HEAD_LEN + FLV_PRE_TAG_LEN, from, [], AacFrame(data.value), ts, absTs);
        assert [] + [AacFrame(data.value)] == [AacFrame(data.value)];
      }
      return if val > 0 then RTMP_OK else RTMP_ERROR;
    }

    lemma NothingQueued(ts: word, absTs: nat)
      ensures Queued(|queue.contents|, [], ts, absTs)
    {
    }
  }

  lemma SliceTagOf(nal: Bytes)
    ensures Mux.SliceTag(nal) == AvcSlice(Mux.IsKeySlice(nal), nal)
  {
  }

  lemma ProfileInBuffer(b: Bytes, q: nat, pps: Bytes)
    requires q <= |b| && NextCode(b, q) < |b|
    ensures var sps := b[q..NextCode(b, q)];
            q + 4 <= |b| && Mux.HeaderTag(sps, pps) == AvcHeader(b[q + 1..q + 4], sps, pps)
  {
    hide NextCode, Mux.Peek;
    PeekInBuffer(b, q, 1);
    PeekInBuffer(b, q, 2);
    PeekInBuffer(b, q, 3);
    assert b[q + 1..q + 4] == [b[q + 1], b[q + 2], b[q + 3]];
  }
}
