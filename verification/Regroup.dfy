/** How `x264_encode.c` hands the encoder's NAL units to the application: an SPS is held back and sent with the next
    PPS. */
module Regroup {
  import opened Bytes

  const NAL_SPS: int := 7
  const NAL_PPS: int := 8

  /** `x264_nal_t`: its type and its payload, which begins with a start code. */
  datatype Nal = Nal(kind: int, payload: Bytes) {
    predicate IsSps() { kind == NAL_SPS }

    predicate IsPps() { kind == NAL_PPS }
  }

  /** `sps_i` after the first `k` units: the last SPS among them, or 0. */
  function SpsIndex(nals: seq<Nal>, k: nat): (i: nat)
    requires k <= |nals|
    ensures k > 0 ==> i < k
    ensures k == 0 ==> i == 0
  {
    if k == 0 then 0 else if nals[k - 1].IsSps() then k - 1 else SpsIndex(nals, k - 1)
  }

  /** The types, as `x264.h` numbers them. */
  lemma KindsOfNals(n: Nal)
    ensures n.IsSps() <==> n.kind == 7
    ensures n.IsPps() <==> n.kind == 8
  {
  }

  /** `sps_i` is the last SPS so far, or 0 if there is none. */
  lemma {:induction false} SpsIndexIsLast(nals: seq<Nal>, k: nat)
    requires k <= |nals|
    ensures var i := SpsIndex(nals, k);
            && (forall j :: i < j < k ==> nals[j].kind != 7)
            && (k > 0 ==> nals[i].kind == 7 || (i == 0 && forall j :: 0 <= j < k ==> nals[j].kind != 7))
  {
    if k > 0 && nals[k - 1].kind != 7 {
      SpsIndexIsLast(nals, k - 1);
    }
  }

  predicate Within(nals: seq<Nal>, g: seq<nat>) {
    forall k :: 0 <= k < |g| ==> g[k] < |nals|
  }

  /** The units whose payloads go into the callback for unit `k`; no callback if empty. */
  function Group(nals: seq<Nal>, k: nat): (g: seq<nat>)
    requires k < |nals|
    ensures Within(nals, g)
  {
    if nals[k].IsSps() then [] else if nals[k].IsPps() then [SpsIndex(nals, k), k] else [k]
  }

  /** The units sent by the first `k` callbacks, in order. */
  function Sent(nals: seq<Nal>, k: nat): (s: seq<nat>)
    requires k <= |nals|
    ensures Within(nals, s)
  {
    if k == 0 then [] else Sent(nals, k - 1) + Group(nals, k - 1)
  }

  function Payloads(nals: seq<Nal>, g: seq<nat>): Bytes
    requires Within(nals, g)
  {
    if g == [] then [] else nals[g[0]].payload + Payloads(nals, g[1..])
  }

  /** What the callback for unit `k` carries: a PPS comes with the SPS before it, any other unit alone. */
  function Callback(nals: seq<Nal>, k: nat): Bytes
    requires k < |nals|
  {
    if nals[k].IsPps() then nals[SpsIndex(nals, k)].payload + nals[k].payload else nals[k].payload
  }

  /** The callbacks for the first `k` units. */
  function Callbacks(nals: seq<Nal>, k: nat): seq<Bytes>
    requires k <= |nals|
  {
    if k == 0 then []
    else Callbacks(nals, k - 1) + (if nals[k - 1].IsSps() then [] else [Callback(nals, k - 1)])
  }

  /** All callbacks of a sequence of encoder calls, in order; `sps_i` starts anew in each call. */
  function AllCallbacks(calls: seq<seq<Nal>>): seq<Bytes> {
    if calls == [] then [] else Callbacks(calls[0], |calls[0]|) + AllCallbacks(calls[1..])
  }

  function UpTo(n: nat): (s: seq<nat>)
    ensures |s| == n
  {
    seq(n, i requires 0 <= i => i)
  }

  /** Parameter sets occur only as adjacent SPS-PPS pairs. */
  predicate Paired(nals: seq<Nal>, k: nat)
    requires k <= |nals|
  {
    && (forall j, i :: 0 <= i && j == i + 1 < k && nals[i].IsSps() ==> nals[j].IsPps())
    && (forall j :: 0 <= j < k && nals[j].IsPps() ==> 0 < j && nals[j - 1].IsSps())
  }

  predicate WellPaired(nals: seq<Nal>) {
    Paired(nals, |nals|) && (nals != [] ==> !nals[|nals| - 1].IsSps())
  }

  /** How many units have been sent by then, if every parameter set so far is paired. */
  function Progress(nals: seq<Nal>, k: nat): nat
    requires k <= |nals|
  {
    if k > 0 && nals[k - 1].IsSps() then k - 1 else k
  }

  lemma UpToNext(n: nat)
    ensures UpTo(n + 1) == UpTo(n) + [n]
  {
  }

  /** What the next callback sends is what comes next. */
  lemma PairedGroup(nals: seq<Nal>, j: nat)
    requires j < |nals| && Paired(nals, j + 1)
    ensures UpTo(Progress(nals, j)) + Group(nals, j) == UpTo(Progress(nals, j + 1))
  {
    hide UpTo;
    if nals[j].IsPps() {
      assert Group(nals, j) == [j - 1, j];
      UpToNext(j - 1);
      UpToNext(j);
      assert UpTo(j - 1) + [j - 1, j] == UpTo(j - 1) + [j - 1] + [j];
    } else {
      assert Progress(nals, j) == j;
      UpToNext(j);
    }
  }

  lemma {:induction false} PairedSendsAll(nals: seq<Nal>, k: nat)
    requires k <= |nals| && Paired(nals, k)
    ensures Sent(nals, k) == UpTo(Progress(nals, k))
  {
    if k > 0 {
      hide Group, Progress, UpTo;
      PairedSendsAll(nals, k - 1);
      PairedGroup(nals, k - 1);
    }
  }

  lemma GroupBound(nals: seq<Nal>, k: nat)
    requires k < |nals|
    ensures SpsIndex(nals, k) <= SpsIndex(nals, k + 1)
    ensures forall i :: 0 <= i < |Group(nals, k)| ==> Group(nals, k)[i] >= SpsIndex(nals, k)
  {
  }

  /** Nothing before the last SPS is sent any more. */
  lemma {:induction false} LaterUnits(nals: seq<Nal>, k: nat, n: nat)
    requires k <= n <= |nals|
    ensures Sent(nals, k) <= Sent(nals, n)
    ensures SpsIndex(nals, k) <= SpsIndex(nals, n)
    ensures forall i :: |Sent(nals, k)| <= i < |Sent(nals, n)| ==> Sent(nals, n)[i] >= SpsIndex(nals, k)
  {
    hide SpsIndex, Group;
    if k < n {
      LaterUnits(nals, k, n - 1);
      GroupBound(nals, n - 1);
    }
  }

  /** If everything is sent in order, so is what is sent by any time, and the next unit sent is not before the last
      SPS. */
  lemma SentInOrder(nals: seq<Nal>, k: nat)
    requires k <= |nals| && Sent(nals, |nals|) == UpTo(|nals|)
    ensures Sent(nals, k) == UpTo(|Sent(nals, k)|)
    ensures |Sent(nals, k)| < |nals| ==> SpsIndex(nals, k) <= |Sent(nals, k)|
  {
    hide Sent, SpsIndex;
    LaterUnits(nals, k, |nals|);
    var next := |Sent(nals, k)|;
    assert next < |nals| ==> Sent(nals, |nals|)[next] == next;
  }

  /** One step of the converse: a unit that would break the pairing would break the order. */
  lemma BrokenPair(nals: seq<Nal>, j: nat)
    requires j < |nals| && Sent(nals, |nals|) == UpTo(|nals|)
    requires Sent(nals, j) == UpTo(Progress(nals, j))
    ensures j > 0 && nals[j - 1].IsSps() <==> nals[j].IsPps()
  {
    SentInOrder(nals, j + 1);
    var m, after := Progress(nals, j), Sent(nals, j + 1);
    assert forall i :: 0 <= i < |after| ==> after[i] == i;
    if nals[j].IsPps() {
      assert after[m] == SpsIndex(nals, j) && after[m + 1] == j;
    } else if nals[j].IsSps() {
      assert |after| == m && SpsIndex(nals, j + 1) == j;
    } else {
      assert after[m] == j;
    }
  }

  lemma {:induction false} SendsAllOnlyIfPaired(nals: seq<Nal>, k: nat)
    requires k <= |nals| && Sent(nals, |nals|) == UpTo(|nals|)
    ensures Paired(nals, k)
  {
    hide Sent, UpTo, Progress;
    if k > 0 {
      SendsAllOnlyIfPaired(nals, k - 1);
      PairedSendsAll(nals, k - 1);
      BrokenPair(nals, k - 1);
    }
  }

  /** Every unit is sent exactly once and in order precisely when SPS and PPS occur only as adjacent pairs. */
  lemma AllSentInOrder(nals: seq<Nal>)
    ensures Sent(nals, |nals|) == UpTo(|nals|) <==> WellPaired(nals)
  {
    if Sent(nals, |nals|) == UpTo(|nals|) {
      SendsAllOnlyIfPaired(nals, |nals|);
      PairedSendsAll(nals, |nals|);
    }
    if WellPaired(nals) {
      PairedSendsAll(nals, |nals|);
    }
  }

  // ---------------------------------------------- exactly once, in whatever order

  /** Whether the last parameter set among the first `k` units is an SPS, which waits for its PPS. */
  predicate Waiting(nals: seq<Nal>, k: nat)
    requires k <= |nals|
  {
    k > 0 && (nals[k - 1].IsSps() || (!nals[k - 1].IsPps() && Waiting(nals, k - 1)))
  }

  /** Parameter sets alternate, SPS first; other units may lie between them. */
  predicate Alternating(nals: seq<Nal>, k: nat)
    requires k <= |nals|
  {
    forall j :: 0 <= j < k ==> (nals[j].IsSps() ==> !Waiting(nals, j)) && (nals[j].IsPps() ==> Waiting(nals, j))
  }

  predicate WellMatched(nals: seq<Nal>) { Alternating(nals, |nals|) && !Waiting(nals, |nals|) }

  function AsBag(s: seq<nat>): multiset<nat> { multiset(s) }

  /** The SPS that waits, if any. */
  function Held(nals: seq<Nal>, k: nat): multiset<nat>
    requires k <= |nals|
  {
    if Waiting(nals, k) then multiset{SpsIndex(nals, k)} else multiset{}
  }

  lemma BagOfConcat(a: seq<nat>, b: seq<nat>)
    ensures AsBag(a + b) == AsBag(a) + AsBag(b)
  {
  }

  /** The first `n` numbers contain each of them once. */
  lemma {:induction false} BagUpTo(n: nat)
    ensures forall i: nat :: AsBag(UpTo(n))[i] == if i < n then 1 else 0
  {
    if n > 0 {
      BagUpTo(n - 1);
      UpToNext(n - 1);
      BagOfConcat(UpTo(n - 1), [n - 1]);
    } else {
      assert UpTo(0) == [];
    }
  }

  lemma WaitingIsSps(nals: seq<Nal>, k: nat)
    requires k <= |nals| && Waiting(nals, k)
    ensures k > 0 && nals[SpsIndex(nals, k)].IsSps()
  {
  }

  /** As long as parameter sets alternate, everything so far has been sent once, except for the SPS that waits. */
  lemma {:induction false} AlternatingSendsOnce(nals: seq<Nal>, k: nat)
    requires k <= |nals| && Alternating(nals, k)
    ensures AsBag(Sent(nals, k)) + Held(nals, k) == AsBag(UpTo(k))
  {
    if k == 0 {
      assert UpTo(0) == [];
    } else {
      hide UpTo, AsBag;
      var j := k - 1;
      AlternatingSendsOnce(nals, j);
      BagOfConcat(Sent(nals, j), Group(nals, j));
      UpToNext(j);
      BagOfConcat(UpTo(j), [j]);
      OneGroup(nals, j);
    }
  }

  lemma OneGroup(nals: seq<Nal>, j: nat)
    requires j < |nals| && Alternating(nals, j + 1)
    ensures AsBag(Group(nals, j)) + Held(nals, j + 1) == Held(nals, j) + AsBag([j])
  {
  }

  lemma {:induction false} SentGrows(nals: seq<Nal>, k: nat, n: nat, i: nat)
    requires k <= n <= |nals|
    ensures AsBag(Sent(nals, k))[i] <= AsBag(Sent(nals, n))[i]
  {
    hide Group;
    if k < n {
      SentGrows(nals, k, n - 1, i);
      BagOfConcat(Sent(nals, n - 1), Group(nals, n - 1));
    }
  }

  /** A PPS that no SPS waits for takes along a unit that has been sent before. */
  lemma LonePpsRepeats(nals: seq<Nal>, j: nat)
    requires j < |nals| && Alternating(nals, j) && nals[j].IsPps() && !Waiting(nals, j)
    ensures AsBag(Sent(nals, j + 1))[SpsIndex(nals, j)] >= 2
  {
    hide Sent, UpTo, Waiting;
    var again := SpsIndex(nals, j);
    SentNext(nals, j);
    AlternatingSendsOnce(nals, j);
    BagUpTo(j);
    BagOfConcat(Sent(nals, j), [again, j]);
    assert AsBag([again, j])[again] == if j == again then 2 else 1;
    assert again < j ==> AsBag(UpTo(j))[again] == 1;
  }

  lemma SentNext(nals: seq<Nal>, j: nat)
    requires j < |nals|
    ensures Sent(nals, j + 1) == Sent(nals, j) + Group(nals, j)
  {
  }

  /** An SPS that is followed by another one, or by the end, before its PPS is never sent. */
  lemma WaitingSpsIsLost(nals: seq<Nal>, j: nat)
    requires j < |nals| && Alternating(nals, j) && nals[j].IsSps() && Waiting(nals, j)
    ensures SpsIndex(nals, j) < j && AsBag(Sent(nals, |nals|))[SpsIndex(nals, j)] == 0
  {
    hide Sent, UpTo, Waiting, Group;
    var lost := SpsIndex(nals, j);
    WaitingIsSps(nals, j);
    AlternatingSendsOnce(nals, j);
    BagUpTo(j);
    SentNext(nals, j);
    SpsSendsNothing(nals, j);
    LaterUnits(nals, j + 1, |nals|);
    var all, before := Sent(nals, |nals|), Sent(nals, j);
    assert AsBag(UpTo(j))[lost] == 1 && Held(nals, j)[lost] == 1;
    assert AsBag(before)[lost] == 0;
    assert forall i :: 0 <= i < |before| ==> all[i] == before[i];
    assert lost !in all;
  }

  lemma {:induction false} SendsOnceOnlyIfAlternating(nals: seq<Nal>, k: nat)
    requires k <= |nals| && AsBag(Sent(nals, |nals|)) == AsBag(UpTo(|nals|))
    ensures Alternating(nals, k)
  {
    hide Sent, UpTo, Waiting, AsBag;
    if k > 0 {
      var j := k - 1;
      SendsOnceOnlyIfAlternating(nals, j);
      BagUpTo(|nals|);
      if nals[j].IsPps() && !Waiting(nals, j) {
        LonePpsRepeats(nals, j);
        SentGrows(nals, k, |nals|, SpsIndex(nals, j));
      } else if nals[j].IsSps() && Waiting(nals, j) {
        WaitingSpsIsLost(nals, j);
      }
    }
  }

  /** Every unit is sent exactly once, in some order, precisely when SPS and PPS alternate, SPS first and PPS last. */
  lemma AllSentOnce(nals: seq<Nal>)
    ensures AsBag(Sent(nals, |nals|)) == AsBag(UpTo(|nals|)) <==> WellMatched(nals)
  {
    hide Sent, UpTo, Waiting, AsBag;
    var n := |nals|;
    if AsBag(Sent(nals, n)) == AsBag(UpTo(n)) {
      SendsOnceOnlyIfAlternating(nals, n);
      AlternatingSendsOnce(nals, n);
    }
    if WellMatched(nals) {
      AlternatingSendsOnce(nals, n);
    }
  }

  /** An SPS that no PPS follows is dropped. */
  lemma SpsDropped(sps: Nal, other: Nal)
    requires sps.IsSps() && !other.IsSps() && !other.IsPps()
    ensures Sent([sps, other], 2) == [1] && !WellMatched([sps, other])
  {
    var nals := [sps, other];
    assert Sent(nals, 1) == Sent(nals, 0) + [] && Waiting(nals, 1) && Waiting(nals, 2);
  }

  /** A second PPS takes the SPS along again. */
  lemma SpsRepeated(sps: Nal, pps: Nal)
    requires sps.IsSps() && pps.IsPps()
    ensures Sent([sps, pps, pps], 3) == [0, 1, 0, 2] && !WellMatched([sps, pps, pps])
  {
    var nals := [sps, pps, pps];
    assert Sent(nals, 1) == Sent(nals, 0) + [];
    assert Sent(nals, 2) == Sent(nals, 1) + [0, 1];
    assert SpsIndex(nals, 1) == 0 && SpsIndex(nals, 2) == 0;
    assert nals[2].IsPps() && !Waiting(nals, 2);
  }

  /** An SPS whose PPS does not follow at once is overtaken by the unit in between: nothing is lost, but the order
      is. */
  lemma SpsOvertaken(sps: Nal, other: Nal, pps: Nal)
    requires sps.IsSps() && pps.IsPps() && !other.IsSps() && !other.IsPps()
    ensures var nals := [sps, other, pps]; Sent(nals, 3) == [1, 0, 2] && WellMatched(nals) && !WellPaired(nals)
  {
    var nals := [sps, other, pps];
    assert Sent(nals, 1) == Sent(nals, 0) + [];
    assert Sent(nals, 2) == Sent(nals, 1) + [1];
    assert SpsIndex(nals, 2) == SpsIndex(nals, 1) == 0;
    assert !Waiting(nals, 0) && Waiting(nals, 1) && Waiting(nals, 2) && !Waiting(nals, 3);
    assert nals[2].IsPps() && !nals[1].IsSps();
  }

  lemma {:induction false} PayloadsConcat(nals: seq<Nal>, g: seq<nat>, h: seq<nat>)
    requires Within(nals, g) && Within(nals, h)
    ensures Within(nals, g + h) && Payloads(nals, g + h) == Payloads(nals, g) + Payloads(nals, h)
  {
    if g == [] {
      assert g + h == h;
    } else {
      assert (g + h)[1..] == g[1..] + h;
      PayloadsConcat(nals, g[1..], h);
    }
  }

  lemma CallbackCarriesGroup(nals: seq<Nal>, k: nat)
    requires k < |nals| && !nals[k].IsSps()
    ensures Callback(nals, k) == Payloads(nals, Group(nals, k))
  {
    assert Payloads(nals, [k]) == nals[k].payload + [];
    var i := SpsIndex(nals, k);
    assert [i, k][1..] == [k];
    assert Payloads(nals, [i, k]) == nals[i].payload + Payloads(nals, [k]);
  }

  /** The callbacks, one after the other, carry the payloads of the units sent. */
  lemma {:induction false} CallbacksCarrySent(nals: seq<Nal>, k: nat)
    requires k <= |nals|
    ensures Concat(Callbacks(nals, k)) == Payloads(nals, Sent(nals, k))
  {
    hide Callback, Group, SpsIndex;
    if k > 0 {
      CallbacksCarrySent(nals, k - 1);
      PayloadsConcat(nals, Sent(nals, k - 1), Group(nals, k - 1));
      if nals[k - 1].IsSps() {
        SpsSendsNothing(nals, k - 1);
        assert Callbacks(nals, k) == Callbacks(nals, k - 1);
      } else {
        CallbackCarriesGroup(nals, k - 1);
        ConcatAppend(Callbacks(nals, k - 1), [Callback(nals, k - 1)]);
        assert Concat([Callback(nals, k - 1)]) == Callback(nals, k - 1) + [];
      }
    }
  }

  lemma SpsSendsNothing(nals: seq<Nal>, k: nat)
    requires k < |nals| && nals[k].IsSps()
    ensures Group(nals, k) == [] && Payloads(nals, Group(nals, k)) == []
  {
  }

  /** The payloads of all units in order. */
  function AllPayloads(nals: seq<Nal>): Bytes { Payloads(nals, UpTo(|nals|)) }

  /** With paired parameter sets, the callbacks concatenate to the payloads of all units in order. */
  lemma CallbacksCarryAll(nals: seq<Nal>)
    requires WellPaired(nals)
    ensures Concat(Callbacks(nals, |nals|)) == AllPayloads(nals)
  {
    AllSentInOrder(nals);
    CallbacksCarrySent(nals, |nals|);
  }

  /** `x264_enc_encode_data`'s loop over the units. */
  method Deliver(nals: seq<Nal>) returns (delivered: seq<Bytes>)
    ensures delivered == Callbacks(nals, |nals|)
  {
    delivered := [];
    var spsI := 0;
    for j := 0 to |nals|
      invariant spsI == SpsIndex(nals, j)
      invariant delivered == Callbacks(nals, j)
    {
      if nals[j].IsSps() {
        spsI := j;
        assert Callbacks(nals, j + 1) == delivered + [];
      } else if nals[j].IsPps() {
        var data := JoinPayloads(nals[spsI].payload, nals[j].payload);
        delivered := delivered + [data[..]];
      } else {
        delivered := delivered + [nals[j].payload];
      }
    }
  }

  /** The buffer on the stack in which an SPS and a PPS are put together, the second one byte by byte. */
  method JoinPayloads(sps: Bytes, pps: Bytes) returns (data: array<byte>)
    ensures fresh(data) && data[..] == sps + pps
  {
    var size := |sps| + |pps|;
    data := new byte[size];
    CopyInto(data, 0, sps);
    var i, ppsI := |sps|, 0;
    while i < size
      invariant |sps| <= i <= size && ppsI == i - |sps|
      invariant data[..i] == sps + pps[..ppsI]
    {
      data[i] := pps[ppsI];
      ppsI := ppsI + 1;
      i := i + 1;
    }
  }
}
