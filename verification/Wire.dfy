/** The application hands the encoder's callbacks and the audio frames to the two writers, the writers share one queue,
    and the thread writes to the connection what it finds there: what a receiver gets out of it. */
module Wire {
  import opened Bytes
  import opened Words
  import opened LinkedQueue
  import opened FlvTag
  import opened Regroup
  import opened RtmpSender
  import opened X264Encoder
  import opened Pipeline
  import AnnexB
  import Mux
  import Receiver
  import Pusher

  /** One call of a writer: an encoder callback, or an audio frame and whether RTMP is connected at that moment. */
  datatype Job = Video(callback: Bytes) | Audio(frame: Bytes, connected: bool)

  function VideoOf(jobs: seq<Job>): seq<Bytes> {
    if jobs == [] then []
    else
      var init, last := jobs[..|jobs| - 1], jobs[|jobs| - 1];
      VideoOf(init) + (if last.Video? then [last.callback] else [])
  }

  /** The audio frames that are not refused for want of a connection. */
  function AudioOf(jobs: seq<Job>): seq<Bytes> {
    if jobs == [] then []
    else
      var init, last := jobs[..|jobs| - 1], jobs[|jobs| - 1];
      AudioOf(init) + (if last.Audio? && last.connected then [last.frame] else [])
  }

  /** The configuration bits after some jobs. */
  function VideoBit(jobs: seq<Job>, video: bool): bool { Mux.WriteFrames(SplitAll(VideoOf(jobs)), video).configured }

  function AudioBit(jobs: seq<Job>, audio: bool): bool { audio || AudioOf(jobs) != [] }

  /** What the source can read: see `Writable`, and the first audio frame must hold its configuration. */
  predicate JobReadable(job: Job, audio: bool) {
    match job
    case Video(b) => Writable(b)
    case Audio(f, connected) => connected && !audio ==> |f| >= 2
  }

  predicate JobsReadable(jobs: seq<Job>, audio: bool) {
    jobs == [] ||
    var init, last := jobs[..|jobs| - 1], jobs[|jobs| - 1];
    JobsReadable(init, audio) && JobReadable(last, AudioBit(init, audio))
  }

  function JobTags(job: Job, video: bool, audio: bool): seq<Tag>
    requires JobReadable(job, audio)
  {
    match job
    case Video(b) => Mux.Write(AnnexB.Split(b), video).tags
    case Audio(f, connected) => if connected then [Mux.AudioTag(f, audio)] else []
  }

  /** The tags of all jobs, in the order of the jobs. */
  function Tags(jobs: seq<Job>, video: bool, audio: bool): seq<Tag>
    requires JobsReadable(jobs, audio)
  {
    if jobs == [] then []
    else
      var init, last := jobs[..|jobs| - 1], jobs[|jobs| - 1];
      Tags(init, video, audio) + JobTags(last, VideoBit(init, video), AudioBit(init, audio))
  }

  lemma OneMoreJob(jobs: seq<Job>, last: Job, video: bool, audio: bool)
    requires JobsReadable(jobs + [last], audio)
    ensures JobsReadable(jobs, audio) && JobReadable(last, AudioBit(jobs, audio))
    ensures Tags(jobs + [last], video, audio)
         == Tags(jobs, video, audio) + JobTags(last, VideoBit(jobs, video), AudioBit(jobs, audio))
    ensures VideoOf(jobs + [last]) == VideoOf(jobs) + (if last.Video? then [last.callback] else [])
    ensures AudioOf(jobs + [last]) == AudioOf(jobs) + (if last.Audio? && last.connected then [last.frame] else [])
  {
    hide Mux.WriteFrames, JobTags, JobReadable;
    assert (jobs + [last])[..|jobs|] == jobs;
  }

  lemma NextVideoBit(jobs: seq<Job>, last: Job, video: bool, audio: bool)
    requires JobsReadable(jobs + [last], audio)
    ensures VideoBit(jobs + [last], video)
         == if last.Video? then Mux.Write(AnnexB.Split(last.callback), VideoBit(jobs, video)).configured
            else VideoBit(jobs, video)
  {
    hide Mux.WriteFrames, Mux.Write, AnnexB.Split, JobTags, JobReadable, JobsReadable, VideoOf, AudioOf;
    OneMoreJob(jobs, last, video, audio);
    if last.Video? {
      NextFrame(VideoOf(jobs), last.callback, video);
    } else {
      assert VideoOf(jobs) + [] == VideoOf(jobs);
    }
  }

  lemma NextFrame(callbacks: seq<Bytes>, last: Bytes, video: bool)
    ensures var w := Mux.WriteFrames(SplitAll(callbacks), video);
            var more := Mux.Write(AnnexB.Split(last), w.configured);
            Mux.WriteFrames(SplitAll(callbacks + [last]), video)
            == Mux.Written(w.tags + more.tags, more.configured, w.complete && more.complete)
  {
    hide Mux.WriteFrames, Mux.Write, AnnexB.Split;
    Mux.WriteFramesAppend(SplitAll(callbacks), AnnexB.Split(last), video);
    assert SplitAll(callbacks + [last]) == SplitAll(callbacks) + [AnnexB.Split(last)];
  }

  /** The video tags of one job. */
  lemma VideoOfJob(job: Job, video: bool, audio: bool)
    requires JobReadable(job, audio)
    ensures Receiver.VideoTags(JobTags(job, video, audio))
         == if job.Video? then Mux.Write(AnnexB.Split(job.callback), video).tags else []
  {
    hide Mux.Write, AnnexB.Split, Writable;
    if job.Video? {
      Receiver.WriteIsVideo(AnnexB.Split(job.callback), video);
      Receiver.OnlyVideo(JobTags(job, video, audio));
    } else if job.connected {
      var t := Mux.AudioTag(job.frame, audio);
      assert [t][1..] == [];
    }
  }

  /** Among the tags of all jobs, the video tags are those of the callbacks, as if there were no audio. */
  lemma {:induction false} VideoAmongTags(jobs: seq<Job>, video: bool, audio: bool)
    requires JobsReadable(jobs, audio)
    ensures Receiver.VideoTags(Tags(jobs, video, audio)) == Mux.WriteFrames(SplitAll(VideoOf(jobs)), video).tags
  {
    if jobs == [] {
      assert SplitAll([]) == [];
    } else {
      var init, last := jobs[..|jobs| - 1], jobs[|jobs| - 1];
      assert jobs == init + [last];
      VideoAmongTags(init, video, audio);
      hide Mux.WriteFrames, Mux.Write, AnnexB.Split, JobTags, JobReadable, JobsReadable, Tags, VideoOf, AudioOf,
        SplitAll;
      OneMoreJob(init, last, video, audio);
      VideoOfJob(last, VideoBit(init, video), AudioBit(init, audio));
      Receiver.VideoTagsConcat(Tags(init, video, audio), JobTags(last, VideoBit(init, video), AudioBit(init, audio)));
      if last.Video? {
        NextFrame(VideoOf(init), last.callback, video);
      } else {
        assert VideoOf(init) + [] == VideoOf(init);
      }
    }
  }

  lemma {:induction false} AudioStaysReadable(jobs: seq<Job>, audio: bool)
    requires JobsReadable(jobs, audio)
    ensures audio || AudioOf(jobs) == [] || |AudioOf(jobs)[0]| >= 2
  {
    if jobs != [] {
      AudioStaysReadable(jobs[..|jobs| - 1], audio);
    }
  }

  /** The audio tags of one job. */
  lemma AudioOfJob(job: Job, video: bool, audio: bool)
    requires JobReadable(job, audio)
    ensures Receiver.AudioTags(JobTags(job, video, audio))
         == if job.Audio? && job.connected then [Mux.AudioTag(job.frame, audio)] else []
  {
    hide Mux.Write, AnnexB.Split, Writable;
    if job.Video? {
      Receiver.WriteIsVideo(AnnexB.Split(job.callback), video);
      Receiver.OnlyVideo(JobTags(job, video, audio));
    } else if job.connected {
      var t := Mux.AudioTag(job.frame, audio);
      assert [t][1..] == [];
    }
  }

  /** And the audio tags are those of the audio frames, as if there were no video. */
  lemma {:induction false} AudioAmongTags(jobs: seq<Job>, video: bool, audio: bool)
    requires JobsReadable(jobs, audio)
    ensures audio || AudioOf(jobs) == [] || |AudioOf(jobs)[0]| >= 2
    ensures Receiver.AudioTags(Tags(jobs, video, audio)) == Mux.WriteAudio(AudioOf(jobs), audio)
  {
    AudioStaysReadable(jobs, audio);
    if jobs != [] {
      var init, last := jobs[..|jobs| - 1], jobs[|jobs| - 1];
      assert jobs == init + [last];
      AudioAmongTags(init, video, audio);
      hide Mux.WriteFrames, Mux.WriteAudio, Mux.AudioTag, JobTags, JobReadable, JobsReadable, Tags, VideoOf, AudioOf;
      OneMoreJob(init, last, video, audio);
      AudioOfJob(last, VideoBit(init, video), AudioBit(init, audio));
      Receiver.AudioTagsConcat(Tags(init, video, audio), JobTags(last, VideoBit(init, video), AudioBit(init, audio)));
      if last.Audio? && last.connected {
        Mux.WriteAudioAppend(AudioOf(init), last.frame, audio);
      } else {
        assert AudioOf(init) + [] == AudioOf(init);
      }
    }
  }

  // ------------------------------------------------------------- the application

  lemma CarryMore(before: seq<Item<array<byte>>>, tags: seq<Tag>, after: seq<Item<array<byte>>>, more: seq<Tag>,
                  ts: word, absTs: nat)
    requires Receiver.CarryAll(Receiver.Packets(before), tags) && HoldTags(after, more, ts, absTs)
    ensures Receiver.CarryAll(Receiver.Packets(before + after), tags + more)
  {
    hide Receiver.CarryAll, HoldTags;
    Receiver.PacketsConcat(before, after);
    Receiver.QueuedPacketsCarry(after, more, ts, absTs);
    Receiver.CarryBoth(Receiver.Packets(before), tags, Receiver.Packets(after), more);
  }

  lemma NothingHeld(ts: word, absTs: nat)
    ensures HoldTags([], [], ts, absTs)
  {
  }

  lemma Longer<T>(before: seq<T>, after: seq<T>, from: nat)
    requires from <= |before| && before <= after
    ensures after[from..] == before[from..] + after[|before|..]
  {
  }

  /** One call of a writer: its packets hold the tags of the job, and the packets before them stay as they were. */
  method CallWriter(sender: Sender, job: Job, ts: word, absTs: nat)
    requires sender.queue.Valid() && JobReadable(job, sender.audioConfigOk)
    modifies sender`videoConfigOk, sender`audioConfigOk, sender.queue.Repr()
    ensures sender.queue.Valid() && fresh(sender.queue.Repr() - old(sender.queue.Repr()))
    ensures old(sender.queue.contents) <= sender.queue.contents
    ensures forall k :: 0 <= k < |old(sender.queue.contents)| ==> unchanged(old(sender.queue.contents)[k].data)
    ensures HoldTags(sender.queue.contents[|old(sender.queue.contents)|..],
                     JobTags(job, old(sender.videoConfigOk), old(sender.audioConfigOk)), ts, absTs)
    ensures sender.videoConfigOk
         == if job.Video? then Mux.Write(AnnexB.Split(job.callback), old(sender.videoConfigOk)).configured
            else old(sender.videoConfigOk)
    ensures sender.audioConfigOk == (old(sender.audioConfigOk) || (job.Audio? && job.connected))
  {
    hide Mux.Write, AnnexB.Split, Writable, LinkedQueue.Valid, HoldTags;
    ghost var before := sender.queue.contents;
    assert forall k :: 0 <= k < |before| ==> before[k].data !in sender.queue.Repr();
    match job {
      case Video(callback) =>
        var _ := sender.WriteVideoFrame(Some(callback), ts, absTs);
      case Audio(frame, connected) =>
        var _ := sender.WriteAudioFrame(connected, Some(frame), ts, absTs);
        if !connected {
          assert sender.queue.contents[|before|..] == [];
          NothingHeld(ts, absTs);
        }
    }
  }

  /** One call of a writer, behind the jobs `done`; the packets behind the first `from` ones are theirs. */
  method WriteJob(sender: Sender, job: Job, ts: word, absTs: nat, ghost done: seq<Job>, ghost from: nat,
                  ghost video: bool, ghost audio: bool)
    requires sender.queue.Valid() && from <= |sender.queue.contents| && JobsReadable(done + [job], audio)
    requires JobsReadable(done, audio)
    requires sender.videoConfigOk == VideoBit(done, video) && sender.audioConfigOk == AudioBit(done, audio)
    requires Receiver.CarryAll(Receiver.Packets(sender.queue.contents[from..]), Tags(done, video, audio))
    modifies sender`videoConfigOk, sender`audioConfigOk, sender.queue.Repr()
    ensures sender.queue.Valid() && fresh(sender.queue.Repr() - old(sender.queue.Repr()))
    ensures old(sender.queue.contents) <= sender.queue.contents
    ensures sender.videoConfigOk == VideoBit(done + [job], video)
    ensures sender.audioConfigOk == AudioBit(done + [job], audio)
    ensures Receiver.CarryAll(Receiver.Packets(sender.queue.contents[from..]), Tags(done + [job], video, audio))
  {
    hide Mux.Write, AnnexB.Split, LinkedQueue.Valid, Receiver.CarryAll, VideoBit, VideoOf, AudioOf, Tags, JobTags,
      JobReadable, JobsReadable, HoldTags;
    ghost var before := sender.queue.contents;
    ghost var queued := before[from..];
    ghost var packets := Receiver.Packets(queued);
    OneMoreJob(done, job, video, audio);
    NextVideoBit(done, job, video, audio);
    label L:
    CallWriter(sender, job, ts, absTs);
    assert forall k :: 0 <= k < |queued| ==> queued[k].data == before[from + k].data && unchanged@L(queued[k].data);
    assert Receiver.Packets(queued) == packets;
    ghost var more := JobTags(job, VideoBit(done, video), AudioBit(done, audio));
    CarryMore(queued, Tags(done, video, audio), sender.queue.contents[|before|..], more, ts, absTs);
    Longer(before, sender.queue.contents, from);
  }

  /** The application: it gives each callback and each audio frame to its writer, with the clock and the stream id of
      that moment. The packets that are queued carry the tags of all of them. */
  method WriteJobs(sender: Sender, jobs: seq<Job>, stamps: seq<(word, nat)>)
    requires sender.queue.Valid() && |stamps| == |jobs| && JobsReadable(jobs, sender.audioConfigOk)
    modifies sender`videoConfigOk, sender`audioConfigOk, sender.queue.Repr()
    ensures sender.queue.Valid() && fresh(sender.queue.Repr() - old(sender.queue.Repr()))
    ensures old(sender.queue.contents) <= sender.queue.contents
    ensures sender.videoConfigOk == VideoBit(jobs, old(sender.videoConfigOk))
    ensures sender.audioConfigOk == AudioBit(jobs, old(sender.audioConfigOk))
    ensures var queued := sender.queue.contents[|old(sender.queue.contents)|..];
            Receiver.CarryAll(Receiver.Packets(queued),
                              Tags(jobs, old(sender.videoConfigOk), old(sender.audioConfigOk)))
  {
    hide VideoBit, Tags, JobsReadable, AudioBit, LinkedQueue.Valid, Receiver.CarryAll;
    ghost var from, video, audio := |sender.queue.contents|, sender.videoConfigOk, sender.audioConfigOk;
    NoJobs(video, audio);
    AllPrefixesReadable(jobs, audio);
    for i := 0 to |jobs|
      invariant sender.queue.Valid() && fresh(sender.queue.Repr() - old(sender.queue.Repr()))
      invariant old(sender.queue.contents) <= sender.queue.contents
      invariant sender.videoConfigOk == VideoBit(jobs[..i], video) && sender.audioConfigOk == AudioBit(jobs[..i], audio)
      invariant Receiver.CarryAll(Receiver.Packets(sender.queue.contents[from..]), Tags(jobs[..i], video, audio))
    {
      assert jobs[..i + 1] == jobs[..i] + [jobs[i]];
      WriteJob(sender, jobs[i], stamps[i].0, stamps[i].1, jobs[..i], from, video, audio);
    }
    assert jobs[..|jobs|] == jobs;
  }

  lemma NoJobs(video: bool, audio: bool)
    ensures JobsReadable([], audio) && VideoBit([], video) == video && AudioBit([], audio) == audio
    ensures Tags([], video, audio) == [] && Receiver.CarryAll([], [])
  {
    assert SplitAll([]) == [];
  }

  lemma {:induction false} AllPrefixesReadable(jobs: seq<Job>, audio: bool)
    requires JobsReadable(jobs, audio)
    ensures forall i :: 0 <= i <= |jobs| ==> JobsReadable(jobs[..i], audio)
  {
    hide JobReadable, AudioBit;
    assert jobs[..|jobs|] == jobs;
    if jobs != [] {
      var init := jobs[..|jobs| - 1];
      AllPrefixesReadable(init, audio);
      assert forall i :: 0 <= i <= |init| ==> jobs[..i] == init[..i];
    }
  }

  // -------------------------------------------------------------------- the wire

  /** What a receiver makes of some packets: slices, parameter sets, and audio. */
  datatype Heard = Heard(slices: seq<Receiver.Slice>, sets: seq<(Bytes, Bytes)>, audio: seq<Tag>) {
    predicate BeginningOf(all: Heard) { slices <= all.slices && sets <= all.sets && audio <= all.audio }
  }

  function Hear(packets: seq<Bytes>): Heard {
    Heard(Receiver.Slices(packets), Receiver.ParameterSets(packets), Receiver.Audio(packets))
  }

  function HeardOfTags(tags: seq<Tag>): Heard {
    Heard(Receiver.SlicesOfTags(tags), Receiver.ParameterSetsOfTags(tags), Receiver.AudioTags(tags))
  }

  lemma HearTags(packets: seq<Bytes>, tags: seq<Tag>)
    requires Receiver.CarryAll(packets, tags) && forall t :: t in tags ==> Fits(t)
    ensures Hear(packets) == HeardOfTags(tags)
  {
    Receiver.PacketsAreRead(packets, tags);
  }

  lemma HearBeginning(packets: seq<Bytes>, more: seq<Bytes>)
    ensures Hear(packets).BeginningOf(Hear(packets + more))
  {
    Receiver.ReadConcat(packets, more);
  }

  lemma TagsBeginning(tags: seq<Tag>, more: seq<Tag>)
    ensures HeardOfTags(tags).BeginningOf(HeardOfTags(tags + more))
  {
    Receiver.SlicesOfConcat(tags, more);
    Receiver.ParameterSetsOfConcat(tags, more);
    Receiver.AudioTagsConcat(tags, more);
  }

  /** What is heard of the packets written is the beginning of what would be heard of all packets pushed. */
  lemma WrittenIsHeard(schedule: seq<Pusher.Action<Bytes>>)
    ensures var s := Pusher.Exec(schedule); Hear(s.written).BeginningOf(Hear(s.pushed))
  {
    hide Hear, Pusher.Exec;
    var s := Pusher.Exec(schedule);
    Pusher.EveryRunConserves(schedule);
    var rest := Pusher.InHand(s) + s.queue + s.dropped;
    assert s.pushed == s.written + rest;
    HearBeginning(s.written, rest);
  }

  /** What should be heard of an encoder run and some audio. */
  function Promised(calls: seq<seq<Nal>>, jobs: seq<Job>): Heard
    requires JobsReadable(jobs, false)
  {
    AudioStaysReadable(jobs, false);
    Heard(Receiver.Expected(UnitBodies(Concat(calls))), FirstParameterSets(Concat(calls)),
          Mux.WriteAudio(AudioOf(jobs), false))
  }

  /** The jobs carry the callbacks of an encoder run from its initialisation on, in order, with any audio between them.
      The encoder's units are well-formed, with adjacent SPS-PPS pairs, and nothing is too long for its length field. */
  ghost predicate Streams(csp: Csp, size: nat, frames: seq<Option<Bytes>>, x264: Oracle, jobs: seq<Job>) {
    && AllReadable(csp, size, frames) && JobsReadable(jobs, false)
    && VideoOf(jobs) == Feed(Start(csp, size), [], frames, x264).0.sent
    && Proper(Returned(Start(csp, size), frames, x264))
    && (forall n :: n in Concat(Returned(Start(csp, size), frames, x264)) ==> Short(n))
    && (forall f :: f in AudioOf(jobs) ==> |f| + 2 < 0x100_0000)
  }

  lemma AudioFits(frames: seq<Bytes>, i: nat)
    requires frames == [] || |frames[0]| >= 2
    requires i < |frames| && |frames[i]| + 2 < 0x100_0000
    ensures Fits(Mux.WriteAudio(frames, false)[i])
  {
    Mux.AudioShape(frames, false, i);
  }

  /** The tags of all jobs are read as promised. */
  lemma AllTagsHeard(csp: Csp, size: nat, frames: seq<Option<Bytes>>, x264: Oracle, jobs: seq<Job>)
    requires Streams(csp, size, frames, x264, jobs)
    ensures var tags := Tags(jobs, false, false);
            && (forall t :: t in tags ==> Fits(t))
            && HeardOfTags(tags) == Promised(Returned(Start(csp, size), frames, x264), jobs)
  {
    hide Returned, Feed, RunFrames, AllCallbacks, Proper, Short, SplitAll, Fits, Tags, VideoOf, AudioOf, JobsReadable,
      Mux.WriteFrames, Mux.WriteAudio, Receiver.Expected, FirstParameterSets, Receiver.VideoTags, Receiver.AudioTags,
      Receiver.SlicesOfTags, Receiver.ParameterSetsOfTags;
    var calls, tags := Returned(Start(csp, size), frames, x264), Tags(jobs, false, false);
    FeedLeavesNothing(Start(csp, size), frames, x264);
    RunSendsCallbacks(Start(csp, size), frames, x264);
    assert Start(csp, size).sent + AllCallbacks(calls) == AllCallbacks(calls);
    VideoAmongTags(jobs, false, false);
    AudioAmongTags(jobs, false, false);
    Receiver.OnlyVideoCounts(tags);
    Receiver.OnlyAudioCounts(tags);
    AllTagsFit(calls);
    EncoderToTagsRead(calls);
    forall t | t in tags ensures Fits(t) {
      if Kind(t) == 8 {
        var i :| 0 <= i < |AudioOf(jobs)| && t == Mux.WriteAudio(AudioOf(jobs), false)[i];
        AudioFits(AudioOf(jobs), i);
      }
    }
  }

  /** When the packets pushed carry the first `m` of some tags, what is heard of the packets written is a beginning of
      them. */
  lemma PushedIsHeard(tags: seq<Tag>, m: nat, schedule: seq<Pusher.Action<Bytes>>)
    requires m <= |tags| && (forall t :: t in tags ==> Fits(t))
    requires Receiver.CarryAll(Pusher.Exec(schedule).pushed, tags[..m])
    ensures var s := Pusher.Exec(schedule);
            && Hear(s.written).BeginningOf(HeardOfTags(tags))
            && (m == |tags| && s.written == s.pushed ==> Hear(s.written) == HeardOfTags(tags))
  {
    hide Hear, HeardOfTags, Fits, Receiver.CarryAll, Pusher.Exec;
    var s := Pusher.Exec(schedule);
    HearTags(s.pushed, tags[..m]);
    TagsBeginning(tags[..m], tags[m..]);
    assert tags[..m] + tags[m..] == tags && tags[..|tags|] == tags;
    WrittenIsHeard(schedule);
  }

  /** From the encoder and the audio source to the wire, under every schedule of writers, thread, network and close: at
      any time when the packets pushed carry the first `m` tags of some jobs, a receiver of what the thread has written
      hears a beginning of what is promised, slices, parameter sets and audio, in order and byte for byte; and all of it
      when all tags have been pushed and everything pushed has been written. */
  lemma EncoderToWire(csp: Csp, size: nat, frames: seq<Option<Bytes>>, x264: Oracle, jobs: seq<Job>, m: nat,
                      schedule: seq<Pusher.Action<Bytes>>)
    requires Streams(csp, size, frames, x264, jobs)
    requires m <= |Tags(jobs, false, false)|
             && Receiver.CarryAll(Pusher.Exec(schedule).pushed, Tags(jobs, false, false)[..m])
    ensures var s, promised := Pusher.Exec(schedule), Promised(Returned(Start(csp, size), frames, x264), jobs);
            && Hear(s.written).BeginningOf(promised)
            && (m == |Tags(jobs, false, false)| && s.written == s.pushed ==> Hear(s.written) == promised)
  {
    hide Streams, Promised, Tags, Hear, HeardOfTags, Heard.BeginningOf, Fits, Receiver.CarryAll, Pusher.Exec,
      JobsReadable;
    StreamsAreReadable(csp, size, frames, x264, jobs);
    AllTagsHeard(csp, size, frames, x264, jobs);
    PushedIsHeard(Tags(jobs, false, false), m, schedule);
  }

  lemma StreamsAreReadable(csp: Csp, size: nat, frames: seq<Option<Bytes>>, x264: Oracle, jobs: seq<Job>)
    requires Streams(csp, size, frames, x264, jobs)
    ensures JobsReadable(jobs, false) && AllReadable(csp, size, frames)
  {
    hide Feed, Returned, Proper, Short, JobsReadable, AllReadable, VideoOf, AudioOf;
  }

  /** While nobody else moves, a thread anywhere in its loop writes everything that has been pushed. */
  lemma WireGetsAll(schedule: seq<Pusher.Action<Bytes>>)
    requires Pusher.Running(Pusher.Exec(schedule))
    ensures var s := Pusher.Exec(schedule);
            var t := Pusher.Exec(schedule + Pusher.Steps(Pusher.DrainSteps(s)));
            t.written == t.pushed == s.pushed
  {
    hide Pusher.Step, Pusher.After, Pusher.DrainSteps;
    var s := Pusher.Exec(schedule);
    Pusher.AfterConcat(Pusher.Initial(), schedule, Pusher.Steps(Pusher.DrainSteps(s)));
    Pusher.EveryRunConserves(schedule);
    Pusher.RunningThreadDrains(s);
    assert s.pushed == s.written + Pusher.InHand(s) + s.queue + s.dropped == s.written + Pusher.InHand(s) + s.queue;
  }
}
