/** The encoder driver of `x264_encode.c`: a queue of frames, drained by whoever finds the encoder stopped. */
module X264Encoder {
  import opened Bytes
  import opened LinkedQueue
  import opened Regroup

  const X264_ENC_OK: int := 0
  const X264_ENC_FAIL: int := -1

  datatype Csp = I420 | NV21 | I422 | I444

  /** The `yuv_format` switch of `x264_enc_init`. */
  function CspOf(yuvFormat: int): Csp {
    if yuvFormat == 1 then NV21 else if yuvFormat == 2 then I422 else if yuvFormat == 3 then I444 else I420
  }

  /** How many bytes of a frame of `size` pixels are read. */
  function FrameBytes(csp: Csp, size: nat): nat {
    match csp
    case I444 => size * 3
    case I422 => size + size / 2 + size / 2
    case I420 => size + size / 4 + size / 4
    case NV21 => size + size / 2
  }

  /** The memcpy's into the planes of the encoder's picture. */
  function Planes(csp: Csp, size: nat, buffer: Bytes): seq<Bytes>
    requires |buffer| >= FrameBytes(csp, size)
  {
    match csp
    case I444 => [buffer[..size], buffer[size..size + size], buffer[size * 2..size * 2 + size]]
    case I422 => [buffer[..size], buffer[size..size + size / 2], buffer[size * 3 / 2..size * 3 / 2 + size / 2]]
    case I420 => [buffer[..size], buffer[size..size + size / 4], buffer[size * 5 / 4..size * 5 / 4 + size / 4]]
    case NV21 => [buffer[..size], buffer[size..size + size / 2]]
  }

  /** Which format a number asks for; every other number asks for I420. */
  lemma Formats(yuvFormat: int)
    ensures CspOf(yuvFormat) == NV21 <==> yuvFormat == 1
    ensures CspOf(yuvFormat) == I422 <==> yuvFormat == 2
    ensures CspOf(yuvFormat) == I444 <==> yuvFormat == 3
    ensures CspOf(yuvFormat) == I420 <==> yuvFormat != 1 && yuvFormat != 2 && yuvFormat != 3
  {
  }

  /** How many planes each format has, and how long they are. */
  lemma PlaneLengths(csp: Csp, size: nat, buffer: Bytes)
    requires |buffer| >= FrameBytes(csp, size)
    ensures var p := Planes(csp, size, buffer);
            match csp
            case I444 => |p| == 3 && |p[0]| == size && |p[1]| == size && |p[2]| == size
            case I422 => |p| == 3 && |p[0]| == size && |p[1]| == size / 2 && |p[2]| == size / 2
            case I420 => |p| == 3 && |p[0]| == size && |p[1]| == size / 4 && |p[2]| == size / 4
            case NV21 => |p| == 2 && |p[0]| == size && |p[1]| == size / 2
  {
  }

  /** The planes take every byte of the frame once, in order, also when the size is not divisible by 4. */
  lemma PlanesCoverFrame(csp: Csp, size: nat, buffer: Bytes)
    requires |buffer| >= FrameBytes(csp, size)
    ensures Concat(Planes(csp, size, buffer)) == buffer[..FrameBytes(csp, size)]
  {
    hide Concat;
    match csp
    case I444 => CutInThree(buffer, size, size * 2, size * 3);
    case I422 => CutInThree(buffer, size, size * 3 / 2, size * 3 / 2 + size / 2);
    case I420 => CutInThree(buffer, size, size * 5 / 4, size * 5 / 4 + size / 4);
    case NV21 => ConcatTwo(buffer[..size], buffer[size..size + size / 2]);
  }

  lemma CutInThree(b: Bytes, i: nat, j: nat, k: nat)
    requires i <= j <= k <= |b|
    ensures Concat([b[..i], b[i..j], b[j..k]]) == b[..k]
  {
    ConcatThree(b[..i], b[i..j], b[j..k]);
  }

  lemma ConcatTwo(a: Bytes, b: Bytes)
    ensures Concat([a, b]) == a + b
  {
    assert [a, b][1..] == [b];
    assert Concat([b]) == b + [];
  }

  lemma ConcatThree(a: Bytes, b: Bytes, c: Bytes)
    ensures Concat([a, b, c]) == a + b + c
  {
    assert [a, b, c][1..] == [b, c];
    ConcatTwo(b, c);
  }

  /** x264 itself, of which nothing is assumed: for the n-th call, the planes and the pts, failure or a list of NAL
      units. */
  type Oracle = (nat, seq<Bytes>, nat) -> Option<seq<Nal>>

  // ------------------------------------------------------------- what a run does

  /** The format chosen at initialisation, and what has happened since. `sent` are the callbacks; `stamps` is the pts of
      each frame given to the encoder, and whether it was encoded. */
  datatype Trace = Trace(csp: Csp, size: nat, frame: nat, calls: nat, sent: seq<Bytes>, stamps: seq<(nat, bool)>)

  function Start(csp: Csp, size: nat): Trace { Trace(csp, size, 0, 0, [], []) }

  /** The frames that the source can read: a missing buffer, or one that is long enough. */
  predicate Readable(csp: Csp, size: nat, buffer: Option<Bytes>) {
    buffer.Some? ==> |buffer.value| >= FrameBytes(csp, size)
  }

  /** One frame through `x264_enc_encode_data`; the second result is whether it returned X264_ENC_OK. */
  function Encode(t: Trace, buffer: Option<Bytes>, x264: Oracle): (r: (Trace, bool))
    requires Readable(t.csp, t.size, buffer)
    ensures r.0.csp == t.csp && r.0.size == t.size
  {
    match buffer
    case None => (t, false)
    case Some(b) =>
      match x264(t.calls, Planes(t.csp, t.size, b), t.frame)
      case None => (t.(calls := t.calls + 1, stamps := t.stamps + [(t.frame, false)]), false)
      case Some(nals) =>
        (t.(calls := t.calls + 1, frame := t.frame + 1, sent := t.sent + Callbacks(nals, |nals|),
            stamps := t.stamps + [(t.frame, true)]), true)
  }

  lemma EncodeCases(t: Trace, buffer: Option<Bytes>, x264: Oracle)
    requires Readable(t.csp, t.size, buffer)
    ensures var u, ok := Encode(t, buffer, x264).0, Encode(t, buffer, x264).1;
            if buffer.None? then u == t && !ok
            else
              var r := x264(t.calls, Planes(t.csp, t.size, buffer.value), t.frame);
              && u.calls == t.calls + 1 && ok == r.Some?
              && u.frame == (if ok then t.frame + 1 else t.frame)
              && u.sent == (if ok then t.sent + Callbacks(r.value, |r.value|) else t.sent)
  {
  }

  predicate AllReadable(csp: Csp, size: nat, frames: seq<Option<Bytes>>) {
    forall i :: 0 <= i < |frames| ==> Readable(csp, size, frames[i])
  }

  /** Encodes waiting frames until one fails; what is left waiting. */
  function Drain(t: Trace, frames: seq<Option<Bytes>>, x264: Oracle): (r: (Trace, seq<Option<Bytes>>))
    requires AllReadable(t.csp, t.size, frames)
    ensures r.0.csp == t.csp && r.0.size == t.size && AllReadable(t.csp, t.size, r.1)
    decreases |frames|
  {
    if frames == [] then (t, [])
    else
      var e := Encode(t, frames[0], x264);
      if e.1 then Drain(e.0, frames[1..], x264) else (e.0, frames[1..])
  }

  /** Calls of `x264_enc_data` one after the other, when `waiting` is in the queue at first: the trace and what is left
      waiting. */
  function Feed(t: Trace, waiting: seq<Option<Bytes>>, frames: seq<Option<Bytes>>, x264: Oracle)
    : (Trace, seq<Option<Bytes>>)
    requires AllReadable(t.csp, t.size, waiting) && AllReadable(t.csp, t.size, frames)
    decreases |frames|
  {
    if frames == [] then (t, waiting)
    else
      var d := Drain(t, waiting + [frames[0]], x264);
      Feed(d.0, d.1, frames[1..], x264)
  }

  /** Frame after frame, without a queue. */
  function RunFrames(t: Trace, frames: seq<Option<Bytes>>, x264: Oracle): Trace
    requires AllReadable(t.csp, t.size, frames)
    decreases |frames|
  {
    if frames == [] then t else RunFrames(Encode(t, frames[0], x264).0, frames[1..], x264)
  }

  /** Calls that do not interrupt each other leave nothing in the queue, also when the encoder fails: every frame is
      given to the encoder, in order, before its own call returns. */
  lemma {:induction false} FeedLeavesNothing(t: Trace, frames: seq<Option<Bytes>>, x264: Oracle)
    requires AllReadable(t.csp, t.size, frames)
    ensures Feed(t, [], frames, x264) == (RunFrames(t, frames, x264), [])
    decreases |frames|
  {
    hide Encode, Readable;
    if frames != [] {
      var e := Encode(t, frames[0], x264);
      var one: seq<Option<Bytes>> := [frames[0]];
      assert [] + one == one && one[1..] == [];
      assert Drain(e.0, [], x264) == (e.0, []);
      var d := Drain(t, one, x264);
      assert d == (e.0, []);
      FeedLeavesNothing(d.0, frames[1..], x264);
    }
  }

  /** The lists of units that the encoder returns for the frames it does not fail on. */
  function Returned(t: Trace, frames: seq<Option<Bytes>>, x264: Oracle): seq<seq<Nal>>
    requires AllReadable(t.csp, t.size, frames)
    decreases |frames|
  {
    if frames == [] then []
    else
      var later := Returned(Encode(t, frames[0], x264).0, frames[1..], x264);
      match frames[0]
      case None => later
      case Some(b) =>
        match x264(t.calls, Planes(t.csp, t.size, b), t.frame)
        case None => later
        case Some(nals) => [nals] + later
  }

  /** The application gets the callbacks of all those lists, in order. */
  lemma {:induction false} RunSendsCallbacks(t: Trace, frames: seq<Option<Bytes>>, x264: Oracle)
    requires AllReadable(t.csp, t.size, frames)
    ensures RunFrames(t, frames, x264).sent == t.sent + AllCallbacks(Returned(t, frames, x264))
    decreases |frames|
  {
    hide Planes, Callbacks;
    if frames != [] {
      var u := Encode(t, frames[0], x264).0;
      var later := Returned(u, frames[1..], x264);
      RunSendsCallbacks(u, frames[1..], x264);
      if Returned(t, frames, x264) != later {
        var nals := x264(t.calls, Planes(t.csp, t.size, frames[0].value), t.frame).value;
        assert ([nals] + later)[1..] == later;
        Regrouped(t.sent, Callbacks(nals, |nals|), AllCallbacks(later));
      }
    }
  }

  function Successes(stamps: seq<(nat, bool)>): nat {
    if stamps == [] then 0
    else Successes(stamps[..|stamps| - 1]) + (if stamps[|stamps| - 1].1 then 1 else 0)
  }

  /** The pts of every frame is the number of frames encoded before it: successful frames get 0, 1, 2, ... in order, and
      the pts of a failed frame is used again. */
  ghost predicate StampsCount(t: Trace) {
    && t.frame == Successes(t.stamps) && t.calls == |t.stamps|
    && forall k :: 0 <= k < |t.stamps| ==> t.stamps[k].0 == Successes(t.stamps[..k])
  }

  lemma OneMoreStamp(stamps: seq<(nat, bool)>, last: (nat, bool))
    ensures Successes(stamps + [last]) == Successes(stamps) + (if last.1 then 1 else 0)
    ensures forall k :: 0 <= k <= |stamps| ==> (stamps + [last])[..k] == stamps[..k]
  {
    assert (stamps + [last])[..|stamps|] == stamps;
  }

  lemma EncodeKeepsStamps(t: Trace, buffer: Option<Bytes>, x264: Oracle)
    requires Readable(t.csp, t.size, buffer) && StampsCount(t)
    ensures StampsCount(Encode(t, buffer, x264).0)
  {
    hide Planes, Callbacks, Successes, Readable;
    if buffer.Some? {
      var u := Encode(t, buffer, x264);
      assert u.0.stamps == t.stamps + [(t.frame, u.1)];
      OneMoreStamp(t.stamps, (t.frame, u.1));
    }
  }

  lemma {:induction false} RunKeepsStamps(t: Trace, frames: seq<Option<Bytes>>, x264: Oracle)
    requires AllReadable(t.csp, t.size, frames) && StampsCount(t)
    ensures StampsCount(RunFrames(t, frames, x264))
    decreases |frames|
  {
    hide Encode, StampsCount, Readable;
    if frames != [] {
      EncodeKeepsStamps(t, frames[0], x264);
      RunKeepsStamps(Encode(t, frames[0], x264).0, frames[1..], x264);
    }
  }

  /** The encoder is asked with the number of frames encoded before, and the stamp that is kept is that pts with its
      answer. */
  lemma EncoderIsAskedWithPts(t: Trace, buffer: Bytes, x264: Oracle)
    requires Readable(t.csp, t.size, Some(buffer)) && StampsCount(t)
    ensures var pts := Successes(t.stamps);
            var answer := x264(|t.stamps|, Planes(t.csp, t.size, buffer), pts);
            && Encode(t, Some(buffer), x264).0.stamps == t.stamps + [(pts, answer.Some?)]
            && Encode(t, Some(buffer), x264).0.sent
               == t.sent + (if answer.Some? then Callbacks(answer.value, |answer.value|) else [])
            && (Encode(t, Some(buffer), x264).1 <==> answer.Some?)
  {
    hide Planes, Callbacks, Successes;
  }

  /** In every run from initialisation. */
  lemma PtsCountSuccesses(csp: Csp, size: nat, frames: seq<Option<Bytes>>, x264: Oracle)
    requires AllReadable(csp, size, frames)
    ensures StampsCount(Feed(Start(csp, size), [], frames, x264).0)
  {
    FeedLeavesNothing(Start(csp, size), frames, x264);
    RunKeepsStamps(Start(csp, size), frames, x264);
  }

  // ------------------------------------------------------------------ the code

  /** What the queue holds, as frames; None is a null buffer. */
  function Frames(items: seq<Item<Option<Bytes>>>): (fs: seq<Option<Bytes>>)
    ensures |fs| == |items|
  {
    seq(|items|, i requires 0 <= i < |items| => items[i].data)
  }

  class Encoder {
    var initialized: bool               // x264_enc_state
    var encoding: bool                  // x264_enc_encoding_state == X264_ENC_ENCODING
    var queue: LinkedQueue?<Option<Bytes>>
    var csp: Csp
    var size: nat
    var iFrame: nat
    ghost var trace: Trace
    var calls: nat
    var sent: seq<Bytes>

    ghost predicate Valid()
      reads this, queue, if queue == null then {} else queue.Repr()
    {
      && (initialized ==> queue != null && queue.Valid())
      && trace.csp == csp && trace.size == size && trace.frame == iFrame && trace.calls == calls && trace.sent == sent
    }

    constructor ()
      ensures Valid() && !initialized && !encoding
    {
      initialized, encoding, queue, csp, size, iFrame := false, false, null, I420, 0, 0;
      trace, calls, sent := Start(I420, 0), 0, [];
    }

    /** `x264_enc_init`; `hasPath` is whether a file path was given. */
    method Init(width: nat, height: nat, hasPath: bool, yuvFormat: int) returns (code: int)
      requires Valid()
      modifies this
      ensures Valid()
      ensures code == if old(initialized) || !hasPath then X264_ENC_FAIL else X264_ENC_OK
      ensures code == X264_ENC_OK ==>
                && initialized && queue.contents == [] && fresh(queue.Repr()) && encoding == old(encoding)
                && trace == Start(CspOf(yuvFormat), width * height)
      ensures code == X264_ENC_FAIL ==> trace == old(trace) && initialized == old(initialized) && queue == old(queue)
    {
      if initialized {
        return X264_ENC_FAIL;
      }
      if !hasPath {
        return X264_ENC_FAIL;
      }
      queue := new LinkedQueue<Option<Bytes>>();
      size := width * height;
      iFrame := 0;
      csp := CspOf(yuvFormat);
      initialized := true;
      calls, sent, trace := 0, [], Start(csp, size);
      return X264_ENC_OK;
    }

    /** `x264_enc_encode_data` */
    method EncodeData(x264: Oracle) returns (ret: int)
      requires Valid() && initialized
      requires AllReadable(csp, size, Frames(queue.contents))
      modifies this, queue
      ensures Valid() && initialized && queue == old(queue) && encoding == old(encoding)
      ensures AllReadable(csp, size, Frames(queue.contents))
      ensures var frames := old(Frames(queue.contents));
              if frames == [] then ret == X264_ENC_FAIL && trace == old(trace) && queue.contents == []
              else
                var e := Encode(old(trace), frames[0], x264);
                && ret == (if e.1 then X264_ENC_OK else X264_ENC_FAIL)
                && trace == e.0 && Frames(queue.contents) == frames[1..]
    {
      hide Planes, Callbacks, LinkedQueue.Valid, Encode;
      var empty := queue.IsEmpty();
      if empty {
        return X264_ENC_FAIL;
      }
      var node := queue.Pop();
      var buffer := node.data;
      assert buffer == old(Frames(queue.contents))[0];
      assert Frames(queue.contents) == old(Frames(queue.contents))[1..];
      ghost var e := Encode(trace, buffer, x264);
      EncodeCases(trace, buffer, x264);
      if buffer.None? {
        return X264_ENC_FAIL;
      }
      var result := x264(calls, Planes(csp, size, buffer.value), iFrame);
      calls := calls + 1;
      if result.None? {
        trace := e.0;
        return X264_ENC_FAIL;
      }
      var delivered := Deliver(result.value);
      sent := sent + delivered;
      iFrame := iFrame + 1;
      trace := e.0;
      return X264_ENC_OK;
    }

    /** The do-while loop of `x264_enc_data`. */
    method Restart(x264: Oracle)
      requires Valid() && initialized && AllReadable(csp, size, Frames(queue.contents))
      modifies this, queue
      ensures Valid() && initialized && queue == old(queue) && !encoding
      ensures (trace, Frames(queue.contents)) == Drain(old(trace), old(Frames(queue.contents)), x264)
    {
      hide Encode, Readable, Frames, LinkedQueue.Valid;
      var ret := EncodeData(x264);
      encoding := ret != X264_ENC_FAIL;
      while encoding
        invariant Valid() && initialized && queue == old(queue)
        invariant AllReadable(csp, size, Frames(queue.contents))
        invariant Drain(old(trace), old(Frames(queue.contents)), x264)
               == if encoding then Drain(trace, Frames(queue.contents), x264) else (trace, Frames(queue.contents))
        decreases |Frames(queue.contents)|, encoding
      {
        ret := EncodeData(x264);
        encoding := ret != X264_ENC_FAIL;
      }
    }

    /** `x264_enc_data`: the frame joins the queue. If the encoder is stopped, frames are encoded until one fails or
        none is left, and the encoder is stopped again; if it is running, the frame is left to the call that keeps it
        running. */
    method EncData(buffer: Option<Bytes>, bufferSize: int, x264: Oracle) returns (code: int)
      requires Valid()
      requires initialized ==> AllReadable(csp, size, Frames(queue.contents)) && Readable(csp, size, buffer)
      modifies this, queue, if queue == null then {} else queue.Repr()
      ensures Valid() && queue == old(queue) && encoding == old(encoding) && initialized == old(initialized)
      ensures !initialized ==> code == X264_ENC_FAIL && trace == old(trace)
      ensures initialized ==>
                var frames := old(Frames(queue.contents)) + [buffer];
                && code == X264_ENC_OK
                && (trace, Frames(queue.contents))
                   == if encoding then (old(trace), frames) else Drain(old(trace), frames, x264)
    {
      hide LinkedQueue.Valid, Encode, Readable, Drain;
      if !initialized {
        return X264_ENC_FAIL;
      }
      if queue == null {
        return X264_ENC_FAIL;
      }
      ghost var frames := Frames(queue.contents) + [buffer];
      var _ := queue.Push(buffer, bufferSize);
      assert Frames(queue.contents) == frames;
      if !encoding {
        Restart(x264);
      }
      return X264_ENC_OK;
    }
  }
}
