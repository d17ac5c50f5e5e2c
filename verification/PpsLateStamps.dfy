/** Stamps taken while their second was still in progress and converted after it finished
    (PpsAdjust.cpp): the open window reaches beyond the second the stamp is counted from. */
module PpsLateStamps {
  import opened Words
  import opened PpsAdjust

  /** A second finished by a PPS edge at this true time, and the rates reported with it. */
  datatype Second = Second(edge: int, applied: u32, next: u32)

  function LastEdge(now: int, run: seq<Second>): int {
    if |run| == 0 then now else run[|run| - 1].edge
  }

  /** Edges in order, each within a turn of the clock of the one before. */
  predicate InOrder(now: int, run: seq<Second>) {
    |run| == 0 ||
    (var before := run[..|run| - 1];
     InOrder(now, before) && LastEdge(now, before) <= LastEdge(now, run) < LastEdge(now, before) + TWO32)
  }

  /** The record after these seconds have finished. */
  function Record(v: Seconds, size: nat, run: seq<Second>): (w: Seconds)
    requires v.nominal > 0
    ensures w.nominal == v.nominal
  {
    if |run| == 0 then v
    else
      var w := Record(v, size, run[..|run| - 1]);
      var s := run[|run| - 1];
      Finalize(w, size, w.start, Wrap32(s.edge), s.applied, s.next)
  }

  /** A finished second moves the others back and leaves their numbers and true starts. */
  lemma {:induction false} FinalizeKeepsBegin(v: Seconds, now: int, size: nat, s: Second, i: nat, dropped: nat)
    requires Contiguous(v) && v.nominal > 0 && size > 0 && Wrap32(now) == v.start && now <= s.edge < now + TWO32
    requires var w := Finalize(v, size, v.start, Wrap32(s.edge), s.applied, s.next);
      |w.spans| == |v.spans| + 1 - dropped && dropped <= i <= |v.spans|
    ensures var w := Finalize(v, size, v.start, Wrap32(s.edge), s.applied, s.next);
      SeqAt(w, i - dropped) == SeqAt(v, i) && Begin(w, s.edge, i - dropped) == Begin(v, now, i)
    decreases |v.spans| - i
  {
    hide Wrap32, Sub32, Finalize, Contiguous;
    var w := Finalize(v, size, v.start, Wrap32(s.edge), s.applied, s.next);
    PrimedIs(v);
    var d := FinalizeShifts(v, size, v.start, Wrap32(s.edge), s.applied, s.next);
    NumberAfter(v.seqNo, |v.spans|, i);
    if i < |v.spans| {
      FinalizeKeepsBegin(v, now, size, s, i + 1, dropped);
    } else {
      ElapsedIn(s.edge, now);
      BeginAtEnd(w, s.edge);
    }
  }

  /** After any run of seconds the one that was in progress before is, while remembered, still
      numbered, begins when it did and ends at the first edge of the run. */
  ghost predicate Kept(v: Seconds, now: int, run: seq<Second>, w: Seconds, last: int) {
    && Contiguous(w) && Scaled32(w) && Wrap32(last) == w.start
    && (|run| <= |w.spans| ==>
          SeqAt(w, |w.spans| - |run|) == v.seqNo && Begin(w, last, |w.spans| - |run|) == now)
    && (0 < |run| <= |w.spans| ==> Begin(w, last, |w.spans| - |run| + 1) == run[0].edge)
  }

  lemma {:induction false} RunKeepsSecond(v: Seconds, now: int, size: nat, run: seq<Second>)
    requires Contiguous(v) && Scaled32(v) && Wrap32(now) == v.start && size > 0 && InOrder(now, run)
    ensures Kept(v, now, run, Record(v, size, run), LastEdge(now, run))
  {
    if |run| == 0 {
      SeqAtEnd(v);
    } else {
      RunKeepsSecond(v, now, size, run[..|run| - 1]);
      OneMoreSecond(v, now, size, run);
    }
  }

  lemma OneMoreSecond(v: Seconds, now: int, size: nat, run: seq<Second>)
    requires v.nominal > 0 && size > 0 && |run| > 0 && InOrder(now, run)
    requires var before := run[..|run| - 1]; Kept(v, now, before, Record(v, size, before), LastEdge(now, before))
    ensures Kept(v, now, run, Record(v, size, run), LastEdge(now, run))
  {
    hide Wrap32, SeqAt, Begin, Contiguous, Scaled32, Finalize, Record;
    var n, before, s := |run|, run[..|run| - 1], run[|run| - 1];
    var w0, w := Record(v, size, before), Record(v, size, run);
    RecordMore(v, size, run);
    FinalizeKeepsContiguous(w0, size, w0.start, Wrap32(s.edge), s.applied, s.next);
    PrimedIs(w0);
    var dropped := FinalizeShifts(w0, size, w0.start, Wrap32(s.edge), s.applied, s.next);
    if n <= |w.spans| {
      FinalizeKeepsBegin(w0, LastEdge(now, before), size, s, |w.spans| - n + dropped, dropped);
      if n == 1 {
        BeginAtEnd(w, s.edge);
      } else {
        FinalizeKeepsBegin(w0, LastEdge(now, before), size, s, |w.spans| - n + 1 + dropped, dropped);
      }
    }
  }

  /** Every second of a run is remembered at the rate reported as applied during it, and the
      one in progress goes by the rate reported as next at its start. */
  lemma {:induction false} RunKeepsRates(v: Seconds, size: nat, run: seq<Second>)
    requires v.primed && v.nominal > 0 && size > 0 && |run| > 0
    ensures var w := Record(v, size, run);
      && w.primed && w.hz == OrNominal(run[|run| - 1].next, v.nominal)
      && forall k :: 0 <= k < |run| && |run| - k <= |w.spans| ==>
           w.spans[|w.spans| - (|run| - k)].hz == OrNominal(run[k].applied, v.nominal)
  {
    hide Finalize, Record, OrNominal, Wrap32;
    var before, s := run[..|run| - 1], run[|run| - 1];
    var w0 := Record(v, size, before);
    RecordMore(v, size, run);
    if |before| > 0 {
      RunKeepsRates(v, size, before);
    } else {
      NoSeconds(v, size, before);
    }
    var dropped := FinalizeShifts(w0, size, w0.start, Wrap32(s.edge), s.applied, s.next);
    var w := Record(v, size, run);
    forall k | 0 <= k < |run| && |run| - k <= |w.spans|
      ensures w.spans[|w.spans| - (|run| - k)].hz == OrNominal(run[k].applied, v.nominal)
    {
      if k < |before| {
        assert w.spans[|w.spans| - (|run| - k)] == w0.spans[|w0.spans| - (|before| - k)];
      }
    }
  }

  lemma NoSeconds(v: Seconds, size: nat, run: seq<Second>)
    requires v.nominal > 0 && run == []
    ensures Record(v, size, run) == v
  {
  }

  lemma PrimedIs(v: Seconds)
    requires Contiguous(v)
    ensures v.primed
  {
  }

  lemma RecordMore(v: Seconds, size: nat, run: seq<Second>)
    requires v.nominal > 0 && |run| > 0
    ensures var w, s := Record(v, size, run[..|run| - 1]), run[|run| - 1];
      w.nominal > 0 && Record(v, size, run) == Finalize(w, size, w.start, Wrap32(s.edge), s.applied, s.next)
  {
  }

  /** A stamp past the end of its finished second is not converted: the firmware falls back. */
  lemma PastTheEnd(w: Seconds, i: nat, a: u32, j: nat, b: u32, raw: u32)
    requires Contiguous(w) && i < j <= |w.spans| < TWO32 && a > w.spans[i].ticks
    ensures Convert(w, Stamp(SeqAt(w, i), a), Stamp(SeqAt(w, j), b), raw).None?
  {
    hide SeqAt, Contiguous, Wrap32, Sub32, ScaleOf;
    SeqStep(w, i, j - i);
    SeqStep(w, i, 0);
    SecondIsFound(w, i);
  }

  /** A stamp within its finished second is converted, and accurately. */
  lemma WithinTheEnd(w: Seconds, last: int, i: nat, a: u32, j: nat, b: u32, raw: u32)
    requires Contiguous(w) && Scaled32(w) && i <= j <= |w.spans| < TWO31 && i < |w.spans| && a <= w.spans[i].ticks
    requires raw == (Begin(w, last, j) + b) - (Begin(w, last, i) + a)
    ensures var r := Convert(w, Stamp(SeqAt(w, i), a), Stamp(SeqAt(w, j), b), raw);
      r.Some? && Interval(w, i, a, j, b) && Accurate(w, i, a, j, b, r)
  {
    assert Interval(w, i, a, j, b);
    hide SeqAt, Contiguous, Scaled32, Convert, Begin, Pieces, Total;
    ConversionIsAccurate(w, last, i, a, j, b, raw);
  }

  lemma SecondAtLeast(w: Seconds, last: int, t: int, i: nat)
    requires i <= |w.spans| && Begin(w, last, i) <= t
    ensures i <= SecondOf(w, last, t, |w.spans|)
  {
    hide SecondOf, Begin;
    var k := SecondOf(w, last, t, |w.spans|);
    if k < i {
      BeginOrder(w, last, k + 1, i);
    }
  }

  lemma EndOf(w: Seconds, last: int, i: nat)
    requires i < |w.spans|
    ensures Begin(w, last, i + 1) == Begin(w, last, i) + w.spans[i].ticks
  {
  }

  /** A stamp of any offset in a remembered second, converted up to a later covered edge: the
      firmware falls back exactly when the offset is past the end of the finished second. */
  lemma LateStampConverts(w: Seconds, last: int, i: nat, a: u32, t: int, t2: int) returns (j: nat, y: Stamp)
    requires Contiguous(w) && Scaled32(w) && Wrap32(last) == w.start && i < |w.spans| < TWO31
    requires 2 * w.nominal < TWO32 && last + 2 * w.nominal < Begin(w, last, 0) + TWO32
    requires t == Begin(w, last, i) + a && t <= t2 && Covered(w, last, t2)
    ensures TagOf(w, Wrap32(t2)) == Some(y) && 0 <= t2 - t < TWO32 && j <= |w.spans| && Names(w, last, y, t2, j)
    ensures Convert(w, Stamp(SeqAt(w, i), a), y, t2 - t).Some? <==> a <= w.spans[i].ticks
    ensures a <= w.spans[i].ticks ==>
      Interval(w, i, a, j, y.offset) && Accurate(w, i, a, j, y.offset, Convert(w, Stamp(SeqAt(w, i), a), y, t2 - t))
  {
    hide TagOf, SeqAt, Wrap32, Contiguous, Scaled32, Convert, Begin, Accurate, Interval, Names, Covered;
    j, y := LaterTag(w, last, i, t, t2);
    ConvertsToNamed(w, last, i, a, t2, j, y, t2 - t);
  }

  /** The conversion up to an edge whose second is known. */
  lemma ConvertsToNamed(w: Seconds, last: int, i: nat, a: u32, t2: int, j: nat, y: Stamp, raw: u32)
    requires Contiguous(w) && Scaled32(w) && i < |w.spans| < TWO31 && i <= j <= |w.spans|
    requires Names(w, last, y, t2, j) && Begin(w, last, i) + a + raw == t2
    ensures Convert(w, Stamp(SeqAt(w, i), a), y, raw).Some? <==> a <= w.spans[i].ticks
    ensures a <= w.spans[i].ticks ==>
      Interval(w, i, a, j, y.offset) && Accurate(w, i, a, j, y.offset, Convert(w, Stamp(SeqAt(w, i), a), y, raw))
  {
    hide SeqAt, Wrap32, Contiguous, Scaled32, Convert, Begin, Accurate, Interval, Names;
    NamesMeans(w, last, y, t2, j);
    if a <= w.spans[i].ticks {
      WithinTheEnd(w, last, i, a, j, y.offset, raw);
    } else {
      EndOf(w, last, i);
      PastTheEnd(w, i, a, j, y.offset, raw);
    }
  }

  lemma NamesMeans(w: Seconds, last: int, y: Stamp, t: int, j: nat)
    requires j <= |w.spans| && Names(w, last, y, t, j)
    ensures y == Stamp(SeqAt(w, j), y.offset) && t == Begin(w, last, j) + y.offset
    ensures j < |w.spans| ==> t < Begin(w, last, j + 1)
  {
    hide SeqAt, Begin;
  }

  lemma LaterTag(w: Seconds, last: int, i: nat, t: int, t2: int) returns (j: nat, y: Stamp)
    requires Contiguous(w) && Wrap32(last) == w.start && i < |w.spans|
    requires 2 * w.nominal < TWO32 && last + 2 * w.nominal < Begin(w, last, 0) + TWO32
    requires Begin(w, last, i) <= t <= t2 && Covered(w, last, t2)
    ensures TagOf(w, Wrap32(t2)) == Some(y) && t2 - t < TWO32 && i <= j <= |w.spans| && Names(w, last, y, t2, j)
  {
    hide TagOf, SecondOf, SeqAt, Wrap32, Contiguous, Begin, Names;
    BeginOrder(w, last, 0, i);
    TagIsExact(w, last, t2);
    j, y := SecondOf(w, last, t2, |w.spans|), TagOf(w, Wrap32(t2)).value;
    SecondAtLeast(w, last, t2, i);
  }

  lemma OpenEdgeTag(v: Seconds, now: int, t: int)
    requires Contiguous(v) && Wrap32(now) == v.start && 2 * v.nominal < TWO32
    requires now + 2 * v.nominal < Begin(v, now, 0) + TWO32 && now <= t <= now + 2 * v.nominal
    ensures t - now < TWO32 && TagOf(v, Wrap32(t)) == Some(Stamp(v.seqNo, t - now))
  {
    hide TagOf, SecondOf, SeqAt, Wrap32, Contiguous, Begin;
    BeginAtEnd(v, now);
    BeginOrder(v, now, 0, |v.spans|);
    TagIsExact(v, now, t);
    SecondUnfolds(v, now, t, |v.spans|);
    SeqAtEnd(v);
  }

  /** The second in progress before the run has finished and is remembered, and t2 is covered. */
  predicate Remembered(run: seq<Second>, w: Seconds, last: int, t2: int) {
    0 < |run| <= |w.spans| < TWO31 && last + 2 * w.nominal < Begin(w, last, 0) + TWO32 && Covered(w, last, t2)
  }

  lemma KeptEnds(v: Seconds, now: int, run: seq<Second>, w: Seconds, last: int, i: nat)
    requires Kept(v, now, run, w, last) && 0 < |run| <= |w.spans| && i == |w.spans| - |run|
    ensures Contiguous(w) && Scaled32(w) && Wrap32(last) == w.start
    ensures SeqAt(w, i) == v.seqNo && Begin(w, last, i) == now && w.spans[i].ticks == run[0].edge - now
  {
    hide SeqAt, Wrap32, Contiguous, Scaled32, Begin;
    EndOf(w, last, i);
  }

  /** An edge tagged in the open window, and the interval from it to a later covered edge
      converted once its second has finished and is still remembered: the conversion succeeds
      exactly when the edge was no later than the PPS edge that ended its second, and is then
      accurate for the true pieces; otherwise the raw ticks are returned. */
  lemma OpenStampConverts(v: Seconds, now: int, size: nat, t: int, run: seq<Second>, t2: int)
    returns (w: Seconds, i: nat, j: nat, x: Stamp, y: Stamp)
    requires Contiguous(v) && Scaled32(v) && Wrap32(now) == v.start && size > 0 && InOrder(now, run)
    requires 2 * v.nominal < TWO32 && now + 2 * v.nominal < Begin(v, now, 0) + TWO32
    requires now <= t <= now + 2 * v.nominal && t <= t2
    requires Remembered(run, Record(v, size, run), LastEdge(now, run), t2)
    ensures w == Record(v, size, run) && i == |w.spans| - |run|
    ensures x == Stamp(v.seqNo, t - now) && TagOf(v, Wrap32(t)) == Some(x)
    ensures TagOf(w, Wrap32(t2)) == Some(y) && 0 <= t2 - t < TWO32
    ensures Convert(w, x, y, t2 - t).Some? <==> t <= run[0].edge
    ensures t <= run[0].edge ==>
      && Interval(w, i, x.offset, j, y.offset) && Scaled32(w) && Names(w, LastEdge(now, run), y, t2, j)
      && Accurate(w, i, x.offset, j, y.offset, Convert(w, x, y, t2 - t))
  {
    assert v.nominal > 0;
    hide TagOf, SeqAt, Wrap32, Contiguous, Scaled32, Convert, Begin, Accurate, Interval, Names, Covered, InOrder,
         Kept, Record, LastEdge;
    OpenEdgeTag(v, now, t);
    x := Stamp(v.seqNo, t - now);
    RunKeepsSecond(v, now, size, run);
    w, i := Record(v, size, run), |Record(v, size, run).spans| - |run|;
    KeptEnds(v, now, run, w, LastEdge(now, run), i);
    j, y := LateStampConverts(w, LastEdge(now, run), i, x.offset, t, t2);
  }
}
