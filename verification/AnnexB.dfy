/** The Annex B scanner of `rtmp_core.c`: NAL units separated by four-byte start codes (section B.1 of ITU-T H.264). */
module AnnexB {
  import opened Bytes

  const START_CODE: Bytes := [0, 0, 0, 1]

  predicate IsStartCode(b: Bytes, i: nat) {
    i + 4 <= |b| && b[i] == 0 && b[i + 1] == 0 && b[i + 2] == 0 && b[i + 3] == 1
  }

  /** The first start code at or after `from`; the end of the buffer if there is none. */
  function NextCode(b: Bytes, from: nat): (r: nat)
    requires from <= |b|
    ensures from <= r <= |b|
    ensures r < |b| ==> IsStartCode(b, r)
    decreases |b| - from
  {
    if from + 4 > |b| then |b| else if IsStartCode(b, from) then from else NextCode(b, from + 1)
  }

  lemma {:induction false} NextCodeIsFirst(b: Bytes, from: nat, i: nat)
    requires from <= i && IsStartCode(b, i)
    ensures NextCode(b, from) <= i
    decreases i - from
  {
    if from < i && !IsStartCode(b, from) {
      NextCodeIsFirst(b, from + 1, i);
    }
  }

  /** Where a unit lies in the buffer. */
  datatype Extent = Extent(start: nat, end: nat)

  /** The units from `from` on, each after a start code and up to the next one. */
  function Units(b: Bytes, from: nat): (us: seq<Extent>)
    requires from <= |b|
    ensures forall u :: u in us ==> from + 4 <= u.start <= u.end <= |b|
    decreases |b| - from
  {
    var code := NextCode(b, from);
    if code == |b| then []
    else
      var end := NextCode(b, code + 4);
      [Extent(code + 4, end)] + Units(b, end)
  }

  function CutOut(b: Bytes, us: seq<Extent>): (r: seq<Bytes>)
    requires forall u :: u in us ==> u.start <= u.end <= |b|
    ensures |r| == |us|
  {
    if us == [] then [] else [b[us[0].start..us[0].end]] + CutOut(b, us[1..])
  }

  function SplitFrom(b: Bytes, from: nat): seq<Bytes>
    requires from <= |b|
  {
    CutOut(b, Units(b, from))
  }

  function Split(b: Bytes): seq<Bytes> { SplitFrom(b, 0) }

  /** Every unit behind a start code. */
  function Join(nals: seq<Bytes>): Bytes {
    if nals == [] then [] else START_CODE + nals[0] + Join(nals[1..])
  }

  ghost predicate Free(nal: Bytes) {
    forall i: nat :: !IsStartCode(nal, i)
  }

  // --------------------------------------------------------------- round trips

  lemma SplitFromStep(b: Bytes, from: nat)
    requires from <= |b|
    ensures var code := NextCode(b, from);
            SplitFrom(b, from) ==
            if code == |b| then []
            else [b[code + 4..NextCode(b, code + 4)]] + SplitFrom(b, NextCode(b, code + 4))
  {
  }

  lemma Reassembled(b: Bytes, i: nat, j: nat, k: nat)
    requires i <= j && j + 4 <= k <= |b| && IsStartCode(b, j)
    ensures b[i..j] + (START_CODE + b[j + 4..k] + b[k..]) == b[i..]
  {
    assert b[j..j + 4] == START_CODE;
    assert b[i..] == b[i..j] + b[j..];
  }

  /** Nothing is lost: what precedes the first start code, then the units joined again, is the buffer. */
  lemma {:induction false} JoinAfterSplit(b: Bytes, from: nat)
    requires from <= |b|
    ensures b[from..NextCode(b, from)] + Join(SplitFrom(b, from)) == b[from..]
    decreases |b| - from
  {
    hide SplitFrom, NextCode, IsStartCode;
    SplitFromStep(b, from);
    var code := NextCode(b, from);
    if code < |b| {
      var end := NextCode(b, code + 4);
      JoinAfterSplit(b, end);
      if end < |b| {
        NextCodeIsFirst(b, end, end);
      }
      assert Join(SplitFrom(b, end)) == b[end..];
      Reassembled(b, from, code, end);
    }
  }

  /** The scanner only looks ahead: it works on any suffix as on a buffer of its own. */
  lemma {:induction false} NextCodeInSuffix(a: Bytes, b: Bytes, k: nat)
    requires k <= |b|
    ensures NextCode(a + b, |a| + k) == |a| + NextCode(b, k)
    decreases |b| - k
  {
    if k + 4 <= |b| {
      assert IsStartCode(a + b, |a| + k) == IsStartCode(b, k);
      if !IsStartCode(b, k) {
        NextCodeInSuffix(a, b, k + 1);
      }
    }
  }

  lemma {:induction false} SplitInSuffix(a: Bytes, b: Bytes, k: nat)
    requires k <= |b|
    ensures SplitFrom(a + b, |a| + k) == SplitFrom(b, k)
    decreases |b| - k
  {
    hide SplitFrom, NextCode, IsStartCode;
    SplitFromStep(a + b, |a| + k);
    SplitFromStep(b, k);
    NextCodeInSuffix(a, b, k);
    var code := NextCode(b, k);
    if code < |b| {
      NextCodeInSuffix(a, b, code + 4);
      var end := NextCode(b, code + 4);
      assert (a + b)[|a| + code + 4..|a| + end] == b[code + 4..end];
      SplitInSuffix(a, b, end);
    }
  }

  /** A start code is found even where a unit ends in zeros, and none is found across the border. */
  lemma {:induction false} FreeUnitEnds(nal: Bytes, rest: Bytes, k: nat)
    requires Free(nal) && (rest == [] || IsStartCode(rest, 0)) && k <= |nal|
    ensures NextCode(nal + rest, k) == |nal|
    decreases |nal| - k
  {
    var b := nal + rest;
    if k < |nal| {
      if k + 4 <= |nal| {
        assert IsStartCode(b, k) == IsStartCode(nal, k);
      } else if k + 4 <= |b| {
        assert b[k + 3] == rest[k + 3 - |nal|] == 0;
      }
      assert !IsStartCode(b, k);
      if k + 4 <= |b| {
        FreeUnitEnds(nal, rest, k + 1);
      } else {
        assert rest == [];
      }
    }
  }

  /** Splitting undoes joining. */
  lemma {:induction false} SplitAfterJoin(nals: seq<Bytes>)
    requires forall nal :: nal in nals ==> Free(nal)
    ensures Split(Join(nals)) == nals
  {
    hide SplitFrom;
    SplitFromStep(Join(nals), 0);
    if nals != [] {
      var nal, rest := nals[0], Join(nals[1..]);
      var b := START_CODE + nal + rest;
      assert b == START_CODE + (nal + rest);
      assert IsStartCode(b, 0);
      if nals[1..] != [] {
        assert IsStartCode(rest, 0);
      }
      FreeUnitEnds(nal, rest, 0);
      NextCodeInSuffix(START_CODE, nal + rest, 0);
      assert b[4..4 + |nal|] == nal;
      SplitAfterJoin(nals[1..]);
      SplitInSuffix(START_CODE + nal, rest, 0);
    }
  }

  lemma {:induction false} SplitUnitsAreFree(b: Bytes, from: nat)
    requires from <= |b|
    ensures forall nal :: nal in SplitFrom(b, from) ==> Free(nal)
    decreases |b| - from
  {
    hide SplitFrom;
    SplitFromStep(b, from);
    var code := NextCode(b, from);
    if code < |b| {
      var end := NextCode(b, code + 4);
      var nal := b[code + 4..end];
      forall i: nat ensures !IsStartCode(nal, i) {
        if IsStartCode(nal, i) {
          NextCodeIsFirst(b, code + 4, code + 4 + i);
        }
      }
      SplitUnitsAreFree(b, end);
    }
  }

  /** The scanner returns exactly the units that were joined, precisely when none of them contains a start code. */
  lemma SplitUndoesJoin(nals: seq<Bytes>)
    ensures Split(Join(nals)) == nals <==> forall nal :: nal in nals ==> Free(nal)
  {
    hide SplitFrom, Join;
    if forall nal :: nal in nals ==> Free(nal) {
      SplitAfterJoin(nals);
    }
    SplitUnitsAreFree(Join(nals), 0);
  }

  // ------------------------------------------------------------------ the code

  /** `find_start_code`: `zeros` zero bytes and a one, at `p`. */
  method FindStartCode(buf: Bytes, p: nat, zeros: nat) returns (info: nat)
    requires p + zeros < |buf|
    ensures info == if buf[p + zeros] == 1 && (forall k :: p <= k < p + zeros ==> buf[k] == 0) then 1 else 0
  {
    info := if buf[p + zeros] != 1 then 0 else 1;
    if info == 0 {
      return;
    }
    var i := 0;
    while i < zeros
      invariant i <= zeros
      invariant forall k :: p <= k < p + i ==> buf[k] == 0
    {
      if buf[p + i] != 0 {
        return 0;
      }
      i := i + 1;
    }
  }

  /** Either loop of `get_nal`: the next position with a start code; the last three positions are not tried. */
  method Scan(buf: Bytes, from: nat) returns (p: nat)
    requires |buf| >= 3 && from <= |buf|
    ensures from <= p <= |buf|
    ensures if NextCode(buf, from) == |buf| then p >= |buf| - 3 else p == NextCode(buf, from) < |buf| - 3
  {
    p := from;
    while p < |buf| - 3
      invariant from <= p <= |buf|
      invariant NextCode(buf, p) == NextCode(buf, from)
    {
      var info := FindStartCode(buf, p, 3);
      assert IsStartCode(buf, p) <==> info == 1;
      if info == 1 {
        break;
      }
      p := p + 1;
    }
  }

  /** `get_nal`: `total - 3` is an unsigned subtraction, so the buffer must hold at least three bytes. None is the NULL
      result, which leaves the offset alone. */
  method GetNal(buf: Bytes, offset: nat) returns (nal: Option<Extent>, next: nat)
    requires |buf| >= 3 && offset <= |buf|
    ensures var code := NextCode(buf, offset);
            if code == |buf| then nal == None && next == offset
            else nal == Some(Extent(code + 4, next)) && next == NextCode(buf, code + 4)
    ensures nal.Some? ==> offset + 4 <= next <= |buf|
  {
    hide NextCode;
    var total := |buf|;
    var p := Scan(buf, offset);
    if p >= total - 3 {
      return None, offset;
    }
    var q := p + 4;
    p := Scan(buf, q);
    if p >= total - 3 {
      p := total;
    }
    return Some(Extent(q, p)), p;
  }
}
