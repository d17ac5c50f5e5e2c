/** The transactional replay of committed captures (Raspberry.Pi/pendulum_pi/analysis.py). */
module ReplayWorker {
  import opened Words
  import opened CaptureLines

  const MAX_RECORD := 65536

  /** The committed bytes of one segment file. */
  datatype Segment = Segment(path: string, data: Bytes)

  datatype Record = Record(path: string, raw: Bytes, end: nat)

  /** End of the record that starts here: a whole line, not too long, inside the committed bytes. */
  function LineEnd(data: Bytes, offset: nat): (e: Option<nat>)
    requires offset <= |data|
    ensures e.Some? ==> offset < e.value <= |data|
  {
    var i := IndexOf(data[offset..], NEWLINE);
    if offset + i < |data| && i + 1 <= MAX_RECORD then Some(offset + i + 1) else None
  }

  /** The records from an offset on, up to the first incomplete one. */
  function Records(seg: Segment, offset: nat): (rs: seq<Record>)
    requires offset <= |seg.data|
    ensures forall r :: r in rs ==> r.path == seg.path && offset < r.end <= |seg.data|
    decreases |seg.data| - offset
  {
    var e := LineEnd(seg.data, offset);
    if e.None? then [] else [Record(seg.path, seg.data[offset..e.value], e.value)] + Records(seg, e.value)
  }

  /** Everything committed, in acquisition order. */
  function Log(w: seq<Segment>): seq<Record> {
    if |w| == 0 then [] else Log(w[..|w| - 1]) + Records(w[|w| - 1], 0)
  }

  predicate Distinct(w: seq<Segment>) {
    forall i, j :: 0 <= i < j < |w| ==> w[i].path != w[j].path
  }

  // ---- the cursor ----

  function Offsets(done: seq<Record>): map<string, nat> {
    if |done| == 0 then map[] else Offsets(done[..|done| - 1])[done[|done| - 1].path := done[|done| - 1].end]
  }

  function OffsetIn(offsets: map<string, nat>, path: string): nat {
    if path in offsets then offsets[path] else 0
  }

  predicate Avoids(rs: seq<Record>, path: string) {
    forall r :: r in rs ==> r.path != path
  }

  lemma OffsetsAppend(a: seq<Record>, r: Record)
    ensures Offsets(a + [r]) == Offsets(a)[r.path := r.end]
  {
    assert (a + [r])[..|a|] == a;
  }

  lemma {:induction false} OffsetSkips(a: seq<Record>, b: seq<Record>, path: string)
    requires Avoids(b, path)
    ensures OffsetIn(Offsets(a + b), path) == OffsetIn(Offsets(a), path)
  {
    if |b| == 0 {
      assert a + b == a;
    } else {
      OffsetSkips(a, b[..|b| - 1], path);
      assert a + b == (a + b[..|b| - 1]) + [b[|b| - 1]];
      OffsetsAppend(a + b[..|b| - 1], b[|b| - 1]);
    }
  }

  lemma OffsetOfLast(a: seq<Record>, b: seq<Record>, path: string)
    requires Avoids(a, path) && forall r :: r in b ==> r.path == path
    ensures OffsetIn(Offsets(a + b), path) == if |b| == 0 then 0 else b[|b| - 1].end
  {
    hide Offsets, Avoids;
    if |b| == 0 {
      assert a + b == [] + a;
      OffsetSkips([], a, path);
      NoOffsets(path);
    } else {
      var r := b[|b| - 1];
      assert a + b == (a + b[..|b| - 1]) + [r];
      OffsetsAppend(a + b[..|b| - 1], r);
    }
  }

  lemma NoOffsets(path: string)
    ensures OffsetIn(Offsets([]), path) == 0
  {
  }

  lemma {:induction false} LogAvoids(w: seq<Segment>, path: string)
    requires forall i :: 0 <= i < |w| ==> w[i].path != path
    ensures Avoids(Log(w), path)
  {
    if |w| > 0 {
      LogAvoids(w[..|w| - 1], path);
    }
  }

  /** What follows segment i in the log. */
  function After(w: seq<Segment>, i: nat): seq<Record>
    requires i < |w|
  {
    if i == |w| - 1 then [] else After(w[..|w| - 1], i) + Records(w[|w| - 1], 0)
  }

  lemma {:induction false} LogSplits(w: seq<Segment>, i: nat)
    requires i < |w| && Distinct(w)
    ensures Log(w) == Log(w[..i]) + Records(w[i], 0) + After(w, i)
    ensures Avoids(Log(w[..i]), w[i].path) && Avoids(After(w, i), w[i].path)
    decreases |w|
  {
    hide Records;
    LogAvoids(w[..i], w[i].path);
    if i < |w| - 1 {
      var v, last := w[..|w| - 1], w[|w| - 1];
      LogSplits(v, i);
      assert v[..i] == w[..i] && v[i] == w[i] && last.path != w[i].path;
      var a, b, c, d := Log(w[..i]), Records(w[i], 0), After(v, i), Records(last, 0);
      assert (a + b + c) + d == a + b + (c + d);
    } else {
      assert Log(w) == Log(w) + [];
    }
  }

  lemma LogStep(w: seq<Segment>, i: nat)
    requires i < |w|
    ensures Log(w[..i + 1]) == Log(w[..i]) + Records(w[i], 0)
  {
    assert w[..i + 1][..i] == w[..i];
  }

  /** Where reading resumes in a segment after its first k records. */
  function Resume(seg: Segment, k: nat): (o: nat)
    requires k <= |Records(seg, 0)|
    ensures o <= |seg.data|
  {
    if k == 0 then 0 else Records(seg, 0)[k - 1].end
  }

  lemma {:induction false} RecordsFrom(seg: Segment, offset: nat, k: nat)
    requires offset <= |seg.data| && 0 < k <= |Records(seg, offset)|
    ensures Records(seg, offset)[k..] == Records(seg, Records(seg, offset)[k - 1].end)
    decreases k
  {
    hide LineEnd;
    var e := LineEnd(seg.data, offset).value;
    assert Records(seg, offset)[1..] == Records(seg, e);
    if k > 1 {
      RecordsFrom(seg, e, k - 1);
      assert Records(seg, offset)[k..] == Records(seg, e)[k - 1..];
    }
  }

  lemma ResumeRecords(seg: Segment, k: nat)
    requires k <= |Records(seg, 0)|
    ensures Records(seg, Resume(seg, k)) == Records(seg, 0)[k..]
  {
    if k > 0 {
      RecordsFrom(seg, 0, k);
    }
  }

  /** How many records of segment i are among the first n of the log. */
  function Consumed(w: seq<Segment>, i: nat, n: nat): nat
    requires i < |w|
  {
    var base, size := |Log(w[..i])|, |Records(w[i], 0)|;
    if n <= base then 0 else if n <= base + size then n - base else size
  }

  /** The saved offset of a segment is where its consumed records end. */
  lemma OffsetIsResume(w: seq<Segment>, i: nat, n: nat)
    requires Distinct(w) && i < |w| && n <= |Log(w)|
    ensures OffsetIn(Offsets(Log(w)[..n]), w[i].path) == Resume(w[i], Consumed(w, i, n))
  {
    hide Log, Records, Offsets, OffsetIn;
    LogSplits(w, i);
    var before, own, path := Log(w[..i]), Records(w[i], 0), w[i].path;
    var k := Consumed(w, i, n);
    if n <= |before| {
      assert Log(w)[..n] == before[..n] + [];
      OffsetOfLast(before[..n], [], path);
    } else if n <= |before| + |own| {
      assert Log(w)[..n] == before + own[..k];
      OffsetOfLast(before, own[..k], path);
    } else {
      var rest := After(w, i)[..n - |before| - |own|];
      assert Log(w)[..n] == before + own + rest;
      OffsetSkips(before + own, rest, path);
      OffsetOfLast(before, own, path);
    }
  }

  // ---- growth ----

  /** Committed bytes are only added to the last segment, and segments only after it. */
  predicate Grows(w: seq<Segment>, v: seq<Segment>) {
    && |w| <= |v|
    && (forall i :: 0 <= i < |w| - 1 ==> v[i] == w[i])
    && (|w| > 0 ==> v[|w| - 1].path == w[|w| - 1].path && w[|w| - 1].data <= v[|w| - 1].data)
  }

  lemma LineEndStays(a: Bytes, b: Bytes, offset: nat)
    requires a <= b && offset <= |a| && LineEnd(a, offset).Some?
    ensures LineEnd(b, offset) == LineEnd(a, offset)
  {
    var x, y := a[offset..], b[offset..];
    assert y == x + b[|a|..];
    FirstIndexStays(x, b[|a|..]);
  }

  lemma {:induction false} FirstIndexStays(x: Bytes, more: Bytes)
    requires IndexOf(x, NEWLINE) < |x|
    ensures IndexOf(x + more, NEWLINE) == IndexOf(x, NEWLINE)
  {
    if x[0] != NEWLINE {
      FirstIndexStays(x[1..], more);
      assert (x + more)[1..] == x[1..] + more;
    }
  }

  lemma {:induction false} RecordsGrow(a: Segment, b: Segment, offset: nat)
    requires a.path == b.path && a.data <= b.data && offset <= |a.data|
    ensures Records(a, offset) <= Records(b, offset)
    decreases |a.data| - offset
  {
    hide LineEnd;
    var e := LineEnd(a.data, offset);
    if e.Some? {
      LineEndStays(a.data, b.data, offset);
      RecordsGrow(a, b, e.value);
      assert a.data[offset..e.value] == b.data[offset..e.value];
    }
  }

  lemma {:induction false} LogPrefix(v: seq<Segment>, n: nat)
    requires n <= |v|
    ensures Log(v[..n]) <= Log(v)
    decreases |v|
  {
    if n < |v| {
      LogPrefix(v[..|v| - 1], n);
      assert v[..|v| - 1][..n] == v[..n];
    } else {
      assert v[..n] == v;
    }
  }

  /** Growth only appends to the log, so whatever was consumed stays a prefix of it. */
  lemma GrowthAppends(w: seq<Segment>, v: seq<Segment>)
    requires Grows(w, v)
    ensures Log(w) <= Log(v)
  {
    if |w| > 0 {
      var n := |w|;
      assert v[..n][..n - 1] == w[..n - 1];
      RecordsGrow(w[n - 1], v[n - 1], 0);
      assert v[..n][n - 1] == v[n - 1];
      assert Log(v[..n]) == Log(w[..n - 1]) + Records(v[n - 1], 0);
      LogPrefix(v, n);
    }
  }

  // ---- the worker ----

  /** Replaying records one after another; None where one of them raises. */
  function Fold<M>(apply: (M, Record) -> Option<M>, start: M, rs: seq<Record>): Option<M> {
    if |rs| == 0 then Some(start)
    else
      var before := Fold(apply, start, rs[..|rs| - 1]);
      if before.None? then None else apply(before.value, rs[|rs| - 1])
  }

  lemma FoldAppend<M>(apply: (M, Record) -> Option<M>, start: M, rs: seq<Record>, r: Record)
    ensures var before := Fold(apply, start, rs);
      Fold(apply, start, rs + [r]) == if before.None? then None else apply(before.value, r)
  {
    assert (rs + [r])[..|rs|] == rs;
  }

  /** What goes wrong in one pass: the storage lock is busy, an exception before the n-th
      record of the pass, or while saving. */
  datatype Faults = Faults(busy: bool, raises: nat -> bool, save: bool)

  /** The log up to segment i, or as far as it was consumed before if that is more. */
  function Reached(w: seq<Segment>, n: nat, i: nat): seq<Record>
    requires i <= |w| && n <= |Log(w)|
  {
    if n <= |Log(w[..i])| then Log(w[..i]) else Log(w)[..n]
  }

  /** Taking `count` records of segment i from where it was left continues the log. */
  lemma ReachedStep(w: seq<Segment>, n: nat, i: nat, count: nat)
    requires Distinct(w) && i < |w| && n <= |Log(w)|
    requires count <= |Records(w[i], 0)| - Consumed(w, i, n)
    ensures var cur := Reached(w, n, i) + Records(w[i], 0)[Consumed(w, i, n)..][..count];
      && cur <= Log(w)
      && (count == |Records(w[i], 0)| - Consumed(w, i, n) ==> cur == Reached(w, n, i + 1))
  {
    hide Log, Records;
    LogSplits(w, i);
    LogStep(w, i);
    var before, own, k := Log(w[..i]), Records(w[i], 0), Consumed(w, i, n);
    assert own[k..][..count] == own[k..k + count];
    if n <= |before| {
      assert before + own[..count] <= Log(w);
    } else if n <= |before| + |own| {
      assert Log(w)[..n] == before + own[..k];
      assert before + own[..k] + own[k..k + count] == before + own[..k + count];
    } else {
      assert own[k..k + count] == [];
    }
  }

  /** Where reading from an offset on ends: at the first incomplete record. */
  function ReadEnd(seg: Segment, offset: nat): (end: nat)
    requires offset <= |seg.data|
    ensures offset <= end <= |seg.data|
    decreases |seg.data| - offset
  {
    var e := LineEnd(seg.data, offset);
    if e.None? then offset else ReadEnd(seg, e.value)
  }

  /** The committed bytes end with a whole record. */
  predicate Whole(seg: Segment) {
    ReadEnd(seg, 0) == |seg.data|
  }

  lemma {:induction false} ReadEndFrom(seg: Segment, offset: nat, k: nat)
    requires offset <= |seg.data| && 0 < k <= |Records(seg, offset)|
    ensures ReadEnd(seg, Records(seg, offset)[k - 1].end) == ReadEnd(seg, offset)
    decreases k
  {
    hide LineEnd;
    var e := LineEnd(seg.data, offset).value;
    if k > 1 {
      ReadEndFrom(seg, e, k - 1);
      assert Records(seg, offset)[k - 1] == Records(seg, e)[k - 2];
    }
  }

  lemma ReadEndOfResume(seg: Segment, k: nat)
    requires k <= |Records(seg, 0)|
    ensures ReadEnd(seg, Resume(seg, k)) == ReadEnd(seg, 0)
  {
    if k > 0 {
      ReadEndFrom(seg, 0, k);
    }
  }

  /** None of the next records raises, and the model takes them all in. */
  predicate GoesWell<M>(apply: (M, Record) -> Option<M>, start: M, cur: seq<Record>, next: seq<Record>, faults: Faults,
                        from: nat)
  {
    (forall k :: from <= k < from + |next| ==> !faults.raises(k)) && Fold(apply, start, cur + next).Some?
  }

  lemma {:induction false} FailureStays<M>(apply: (M, Record) -> Option<M>, start: M, rs: seq<Record>,
                                           more: seq<Record>)
    requires Fold(apply, start, rs).None?
    ensures Fold(apply, start, rs + more).None?
    decreases |more|
  {
    if |more| == 0 {
      assert rs + more == rs;
    } else {
      FailureStays(apply, start, rs, more[..|more| - 1]);
      assert rs + more == (rs + more[..|more| - 1]) + [more[|more| - 1]];
      FoldAppend(apply, start, rs + more[..|more| - 1], more[|more| - 1]);
    }
  }

  lemma NothingNext<M>(apply: (M, Record) -> Option<M>, start: M, cur: seq<Record>, faults: Faults, from: nat)
    ensures GoesWell(apply, start, cur, [], faults, from) <==> Fold(apply, start, cur).Some?
  {
    assert cur + [] == cur;
  }

  /** The next record decides whether what follows can go well, too. */
  lemma FirstNext<M>(apply: (M, Record) -> Option<M>, start: M, cur: seq<Record>, next: seq<Record>, faults: Faults,
                     from: nat)
    requires |next| > 0
    ensures GoesWell(apply, start, cur, next, faults, from) <==>
      && !faults.raises(from) && Fold(apply, start, cur + [next[0]]).Some?
      && GoesWell(apply, start, cur + [next[0]], next[1..], faults, from + 1)
  {
    hide Fold;
    assert cur + next == (cur + [next[0]]) + next[1..];
    if Fold(apply, start, cur + [next[0]]).None? {
      FailureStays(apply, start, cur + [next[0]], next[1..]);
    }
  }

  /** Segment i is read to its end before the batch is full. */
  predicate ReadsOut(w: seq<Segment>, i: nat, n: nat, max: nat)
    requires i < |w|
  {
    Max(0, |Log(w[..i + 1])| - n) < max
  }

  /** What a pass over the log, of which n records are done, needs to take effect: a free
      storage lock, a save that works if there is something to save, next records that neither
      raise nor make the model fail, and whole records at the end of every segment it reads
      out. */
  predicate Succeeds<M>(apply: (M, Record) -> Option<M>, start: M, w: seq<Segment>, n: nat, max: nat, faults: Faults) {
    var m := Min(n + max, |Log(w)|);
    && !faults.busy && (m > n ==> !faults.save)
    && (forall k :: 0 <= k < m - n ==> !faults.raises(k)) && Fold(apply, start, Log(w)[..m]).Some?
    && forall i :: 0 <= i < |w| && ReadsOut(w, i, n, max) ==> Whole(w[i])
  }

  /** Nothing has failed so far: not in the first `count` records of the pass, and not at the
      end of the first i segments. */
  predicate WellSoFar(w: seq<Segment>, n: nat, max: nat, faults: Faults, count: nat, i: nat) {
    && (forall k :: 0 <= k < count ==> !faults.raises(k))
    && forall j :: 0 <= j < i && j < |w| && ReadsOut(w, j, n, max) ==> Whole(w[j])
  }

  lemma BusyFails<M>(apply: (M, Record) -> Option<M>, start: M, w: seq<Segment>, n: nat, max: nat, faults: Faults)
    requires faults.busy
    ensures !Succeeds(apply, start, w, n, max, faults)
  {
  }

  lemma StartsWell(w: seq<Segment>, n: nat, max: nat, faults: Faults)
    ensures WellSoFar(w, n, max, faults, 0, 0)
  {
  }

  /** What a pass still finds in segment i when n records of the log are done. */
  function Rest(w: seq<Segment>, i: nat, n: nat): seq<Record>
    requires i < |w|
  {
    ConsumedFits(w, i, n);
    Records(w[i], 0)[Consumed(w, i, n)..]
  }

  /** How far the log reaches after segment i. */
  lemma ReachedLength(w: seq<Segment>, n: nat, i: nat)
    requires Distinct(w) && i < |w| && n <= |Log(w)|
    ensures |Reached(w, n, i + 1)| == |Reached(w, n, i)| + |Rest(w, i, n)| == Max(n, |Log(w[..i + 1])|)
  {
    hide Log, Records;
    LogStep(w, i);
    LogPrefix(w, i);
    LogPrefix(w, i + 1);
  }

  lemma {:induction false} LogGrowsAlong(w: seq<Segment>, i: nat, j: nat)
    requires i <= j <= |w|
    ensures |Log(w[..i])| <= |Log(w[..j])|
  {
    hide Log;
    assert w[..j][..i] == w[..i];
    LogPrefix(w[..j], i);
  }

  /** A visit that went well leaves everything well so far; for good, if it filled the batch. */
  lemma VisitedWell<M>(apply: (M, Record) -> Option<M>, start: M, w: seq<Segment>, n: nat, max: nat, faults: Faults,
                       was: seq<Record>, processed: nat, count: nat, i: nat, stop: bool)
    requires Distinct(w) && i < |w| && n <= |Log(w)| && was == Reached(w, n, i) && |was| == n + processed
    requires WellSoFar(w, n, max, faults, processed, i) && processed <= count <= max
    requires var rest := Rest(w, i, n);
      && GoesWell(apply, start, was, rest[..Min(max - processed, |rest|)], faults, processed)
      && (|rest| >= max - processed || Whole(w[i])) && count - processed <= |rest| && (stop ==> count == max)
    ensures WellSoFar(w, n, max, faults, count, if stop then |w| else i + 1)
  {
    hide Log, Reached, Rest, Whole, Fold;
    ReachedLength(w, n, i);
    forall j | i <= j < |w| && stop ensures !ReadsOut(w, j, n, max) {
      LogGrowsAlong(w, i + 1, j + 1);
    }
  }

  lemma PrefixFolds<M>(apply: (M, Record) -> Option<M>, start: M, rs: seq<Record>, all: seq<Record>)
    requires rs <= all && Fold(apply, start, all).Some?
    ensures Fold(apply, start, rs).Some?
  {
    assert all == rs + all[|rs|..];
    if Fold(apply, start, rs).None? {
      FailureStays(apply, start, rs, all[|rs|..]);
    }
  }

  /** A visit that failed has met what makes the whole pass fail. */
  lemma VisitedBadly<M>(apply: (M, Record) -> Option<M>, start: M, w: seq<Segment>, n: nat, max: nat, faults: Faults,
                        was: seq<Record>, processed: nat, i: nat)
    requires Distinct(w) && i < |w| && n <= |Log(w)| && was == Reached(w, n, i) && |was| == n + processed
    requires processed <= max && Succeeds(apply, start, w, n, max, faults)
    ensures var rest := Rest(w, i, n);
      && GoesWell(apply, start, was, rest[..Min(max - processed, |rest|)], faults, processed)
      && (|rest| >= max - processed || Whole(w[i]))
  {
    hide Log, Reached, Whole, Fold, Records, Consumed;
    ReachedLength(w, n, i);
    var rest := Rest(w, i, n);
    var batch := rest[..Min(max - processed, |rest|)];
    ConsumedFits(w, i, n);
    ReachedStep(w, n, i, |batch|);
    var m := Min(n + max, |Log(w)|);
    assert was + batch <= Log(w)[..m];
    PrefixFolds(apply, start, was + batch, Log(w)[..m]);
    assert |rest| < max - processed ==> ReadsOut(w, i, n, max);
  }

  /** A pass that read as far as it could has succeeded, but for the save. */
  lemma PassDecides<M>(apply: (M, Record) -> Option<M>, start: M, w: seq<Segment>, n: nat, max: nat, faults: Faults,
                       got: seq<Record>, count: nat, stop: bool)
    requires n <= |Log(w)| && !faults.busy && Fold(apply, start, got).Some? && |got| == n + count && count <= max
    requires if stop then got <= Log(w) && count == max else got == Reached(w, n, |w|)
    requires WellSoFar(w, n, max, faults, count, |w|)
    ensures Succeeds(apply, start, w, n, max, faults) <==> !(faults.save && count > 0)
  {
    hide Log, Whole, Fold;
    assert w[..|w|] == w;
    assert got == Log(w)[..Min(n + max, |Log(w)|)];
  }

  /** What a run is made of: growth of what is committed, passes, and new processes. */
  datatype Event<M> = Grow(world: seq<Segment>) | Pass(max: nat, faults: Faults, torn: M) | NewProcess(lost: M)

  function WorldAfter<M>(w: seq<Segment>, events: seq<Event<M>>): seq<Segment> {
    if |events| == 0 then w
    else if events[|events| - 1].Grow? then events[|events| - 1].world
    else WorldAfter(w, events[..|events| - 1])
  }

  /** How many records of the log are done after a run: each pass that succeeds takes the next
      `max` of them, or all that are left. */
  function DoneAfter<M>(apply: (M, Record) -> Option<M>, start: M, w: seq<Segment>, events: seq<Event<M>>,
                        n: nat): nat {
    if |events| == 0 then n
    else
      var before := events[..|events| - 1];
      var k, world := DoneAfter(apply, start, w, before, n), WorldAfter(w, before);
      match events[|events| - 1]
      case Pass(max, faults, _) =>
        if k <= |Log(world)| && Succeeds(apply, start, world, k, max, faults) then Min(k + max, |Log(world)|) else k
      case _ => k
  }

  function Batches<M>(events: seq<Event<M>>): nat {
    if |events| == 0 then 0
    else Batches(events[..|events| - 1]) + if events[|events| - 1].Pass? then events[|events| - 1].max else 0
  }

  /** Every event is a pass that succeeds where it is made. */
  predicate AllSucceed<M>(apply: (M, Record) -> Option<M>, start: M, w: seq<Segment>, events: seq<Event<M>>, n: nat) {
    forall i :: 0 <= i < |events| ==>
      && events[i].Pass?
      && Succeeds(apply, start, w, DoneAfter(apply, start, w, events[..i], n), events[i].max, events[i].faults)
  }

  lemma {:induction false} PassesLeaveTheWorld<M>(w: seq<Segment>, events: seq<Event<M>>)
    requires forall i :: 0 <= i < |events| ==> events[i].Pass?
    ensures WorldAfter(w, events) == w
  {
    if |events| > 0 {
      PassesLeaveTheWorld(w, events[..|events| - 1]);
    }
  }

  /** Enough passes that succeed catch up with the log, whatever their sizes. */
  lemma {:induction false} PassesCatchUp<M>(apply: (M, Record) -> Option<M>, start: M, w: seq<Segment>,
                                            events: seq<Event<M>>, n: nat)
    requires n <= |Log(w)| && AllSucceed(apply, start, w, events, n)
    ensures DoneAfter(apply, start, w, events, n) == Min(n + Batches(events), |Log(w)|)
  {
    hide Succeeds, Log;
    if |events| > 0 {
      var last := |events| - 1;
      assert forall i :: 0 <= i <= last ==> events[..last][..i] == events[..i];
      PassesCatchUp(apply, start, w, events[..last], n);
      PassesLeaveTheWorld(w, events[..last]);
      assert events[last].Pass?;
    }
  }

  /** Only the last segment ever grows. */
  predicate OnlyLastGrows<M>(w: seq<Segment>, events: seq<Event<M>>) {
    Distinct(w) &&
    forall i :: 0 <= i < |events| && events[i].Grow? ==>
      Grows(WorldAfter(w, events[..i]), events[i].world) && Distinct(events[i].world)
  }

  class Worker<M(==)> {
    const apply: (M, Record) -> Option<M>
    const start: M
    var model: M
    /** The committed database: saved model state and replay offsets. */
    var saved: Option<M>
    var offsets: map<string, nat>
    /** Offsets as the open transaction sees them. */
    var txn: map<string, nat>
    ghost var done: seq<Record>
    ghost var cur: seq<Record>

    ghost predicate Valid()
      reads this
    {
      && Fold(apply, start, done) == Some(model) && offsets == Offsets(done)
      && (saved == Some(model) || (saved == None && done == []))
    }

    ghost predicate InTransaction()
      reads this`model, this`txn, this`cur
    {
      Fold(apply, start, cur) == Some(model) && txn == Offsets(cur)
    }

    constructor (apply: (M, Record) -> Option<M>, start: M)
      ensures Valid() && done == [] && saved == None && this.apply == apply && this.start == start
    {
      this.apply, this.start := apply, start;
      model, saved, offsets, txn, done, cur := start, None, map[], map[], [], [];
    }

    /** A new process on the same database: memory is lost, the saved state is restored.
        Replay progress without a saved state, which would be refused, does not occur. */
    method Restart(lost: M) returns (ok: bool)
      requires Valid()
      modifies this`model, this`txn, this`cur
      ensures ok && Valid()
    {
      model := lost;
      if saved.Some? {
        model := saved.value;
      } else if exists path :: path in offsets && OffsetIn(offsets, path) > 0 {
        return false;
      } else {
        model := start;
      }
      ok := true;
    }

    /** consume, inside a pass: an exception leaves the model torn. */
    method Consume(r: Record, raises: bool, torn: M) returns (ok: bool)
      requires InTransaction()
      modifies this`model, this`txn, this`cur
      ensures ok ==> InTransaction() && cur == old(cur) + [r]
      ensures ok <==> !raises && Fold(apply, start, old(cur) + [r]).Some?
    {
      hide Offsets, Fold;
      FoldAppend(apply, start, cur, r);
      OffsetsAppend(cur, r);
      if raises {
        model := torn;
        return false;
      }
      var next := apply(model, r);
      if next.None? {
        model := torn;
        return false;
      }
      model := next.value;
      txn := txn[r.path := r.end];
      cur := cur + [r];
      ok := true;
    }

    /** One segment, from its offset to the committed limit or until the batch is full. */
    method Drain(seg: Segment, offset: nat, processed: nat, max: nat, faults: Faults, torn: M)
      returns (ok: bool, count: nat)
      requires InTransaction() && offset <= |seg.data| && processed <= max
      modifies this`model, this`txn, this`cur
      ensures ok ==> InTransaction() && processed <= count <= max
      ensures ok ==> count - processed <= |Records(seg, offset)|
      ensures ok ==> cur == old(cur) + Records(seg, offset)[..count - processed]
      ensures ok && count < max ==> count - processed == |Records(seg, offset)|
      ensures ok <==>
        && GoesWell(apply, start, old(cur), Records(seg, offset)[..Min(max - processed, |Records(seg, offset)|)],
                    faults, processed)
        && (|Records(seg, offset)| >= max - processed || ReadEnd(seg, offset) == |seg.data|)
    {
      hide Offsets, Fold, LineEnd, InTransaction, Records, GoesWell, ReadEnd;
      ghost var all := Records(seg, offset);
      ghost var batch := all[..Min(max - processed, |all|)];
      var at := offset;
      count := processed;
      assert all[..0] == [] && all[0..] == all && batch[0..] == batch;
      NothingLeft(seg);
      while at < |seg.data| && count < max
        invariant offset <= at <= |seg.data| && processed <= count <= max && InTransaction()
        invariant count - processed <= |all| && Records(seg, at) == all[count - processed..]
        invariant cur == old(cur) + all[..count - processed] && ReadEnd(seg, at) == ReadEnd(seg, offset)
        invariant GoesWell(apply, start, old(cur), batch, faults, processed) <==>
                  GoesWell(apply, start, cur, batch[count - processed..], faults, count)
        decreases |seg.data| - at
      {
        ghost var k := count - processed;
        var e := LineEnd(seg.data, at);
        ReadStep(seg, at);
        if e.None? {
          return false, count;
        }
        var r := Record(seg.path, seg.data[at..e.value], e.value);
        RecordsStep(seg, at);
        assert all[k..] == [r] + Records(seg, e.value);
        assert all[k] == all[k..][0] && all[..k + 1] == all[..k] + [r] && all[k + 1..] == all[k..][1..];
        assert batch[k..][0] == r && batch[k..][1..] == batch[k + 1..];
        FirstNext(apply, start, cur, batch[k..], faults, count);
        var taken := Consume(r, faults.raises(count), torn);
        if !taken {
          return false, count;
        }
        at, count := e.value, count + 1;
      }
      assert batch[count - processed..] == [];
      TransactionFolds();
      NothingNext(apply, start, cur, faults, count);
      ok := true;
    }

    lemma TransactionFolds()
      requires InTransaction()
      ensures Fold(apply, start, cur).Some?
    {
    }

    /** One segment of a pass, from its saved offset; `stop` when the batch is full. */
    method Visit(w: seq<Segment>, i: nat, processed: nat, max: nat, faults: Faults, torn: M)
      returns (ok: bool, count: nat, stop: bool)
      requires InTransaction() && Distinct(w) && i < |w| && processed <= max && offsets == Offsets(done)
      requires done <= Log(w) ==> cur == Reached(w, |done|, i)
      modifies this`model, this`txn, this`cur
      ensures ok ==> InTransaction() && old(cur) <= cur && |cur| == |old(cur)| + (count - processed)
      ensures ok ==> processed <= count <= max && (stop ==> count == max)
      ensures ok && done <= Log(w) ==> if stop then cur <= Log(w) else cur == Reached(w, |done|, i + 1)
      ensures done <= Log(w) ==>
        (ok <==> var rest := Rest(w, i, |done|);
           && GoesWell(apply, start, old(cur), rest[..Min(max - processed, |rest|)], faults, processed)
           && (|rest| >= max - processed || Whole(w[i])))
      ensures ok && done <= Log(w) ==> count - processed <= |Rest(w, i, |done|)|
    {
      hide Offsets, Fold, Log, Records, Reached, Consumed, InTransaction, Resume, OffsetIn, GoesWell, ReadEnd;
      var seg := w[i];
      var offset := OffsetIn(offsets, seg.path);
      ghost var k := Consumed(w, i, |done|);
      if done <= Log(w) {
        assert done == Log(w)[..|done|];
        OffsetIsResume(w, i, |done|);
        ConsumedFits(w, i, |done|);
        ResumeRecords(seg, k);
        ReadEndOfResume(seg, k);
      }
      if |seg.data| < offset {
        return false, processed, false;
      }
      if |seg.data| == offset {
        if done <= Log(w) {
          NothingLeft(seg);
          ReachedStep(w, |done|, i, 0);
          assert Records(seg, 0)[k..][..0] == [];
          TransactionFolds();
          NothingNext(apply, start, cur, faults, processed);
          assert Rest(w, i, |done|)[..0] == [];
        }
        return true, processed, false;
      }
      ok, count := Drain(seg, offset, processed, max, faults, torn);
      if ok && done <= Log(w) {
        ReachedStep(w, |done|, i, count - processed);
      }
      stop := count >= max;
    }

    /** One pass over the segments. It takes effect as a whole or not at all, and what it
        takes in are the next records of the log, each once, in order. */
    method Step(w: seq<Segment>, max: nat, faults: Faults, torn: M) returns (taken: Option<nat>)
      requires Valid() && Distinct(w)
      modifies this
      ensures Valid()
      ensures taken == None ==>
        model == old(model) && saved == old(saved) && offsets == old(offsets) && done == old(done)
      ensures taken.Some? ==> old(done) <= done && |done| == |old(done)| + taken.value
      ensures old(done) <= Log(w) ==> done <= Log(w)
      ensures old(done) <= Log(w) && taken.Some? ==> |done| == Min(|old(done)| + max, |Log(w)|)
      ensures old(done) <= Log(w) ==> (taken.Some? <==> Succeeds(apply, start, w, |old(done)|, max, faults))
    {
      hide Offsets, Fold, Log, Records, Reached, Consumed, Succeeds, Rest, Whole, GoesWell, ReadsOut;
      if faults.busy {
        BusyFails(apply, start, w, |done|, max, faults);
        return None;
      }
      var before := model;
      txn, cur := offsets, done;
      var ok, stop, count, i := true, false, 0, 0;
      ReachedStart(w, done);
      StartsWell(w, |done|, max, faults);
      while i < |w| && ok && !stop
        invariant i <= |w| && (ok ==> count <= max && (stop ==> count == max))
        invariant ok ==> InTransaction() && done <= cur && |cur| == |done| + count
        invariant ok && done <= Log(w) ==> if stop then cur <= Log(w) else cur == Reached(w, |done|, i)
        invariant done <= Log(w) && ok ==> WellSoFar(w, |done|, max, faults, count, if stop then |w| else i)
        invariant done <= Log(w) && !ok ==> !Succeeds(apply, start, w, |done|, max, faults)
        modifies this`model, this`txn, this`cur
      {
        ghost var was, processed := cur, count;
        ok, count, stop := Visit(w, i, count, max, faults, torn);
        if done <= Log(w) && ok {
          VisitedWell(apply, start, w, |done|, max, faults, was, processed, count, i, stop);
        } else if done <= Log(w) && Succeeds(apply, start, w, |done|, max, faults) {
          VisitedBadly(apply, start, w, |done|, max, faults, was, processed, i);
        }
        i := i + 1;
      }
      if done <= Log(w) && ok {
        TransactionFolds();
        PassDecides(apply, start, w, |done|, max, faults, cur, count, stop);
      }
      if !ok || (faults.save && count > 0) {
        model := before;
        return None;
      }
      ReachedEnd(w, done);
      if count > 0 {
        saved := Some(model);
      } else {
        assert cur == done;
      }
      offsets, done := txn, cur;
      taken := Some(count);
    }

    /** Any run of growth, passes of any size, failures and new processes: what the saved state
        is the fold of, and the offsets point behind, are the first records of the log of what
        is committed by then, each once, in order. */
    method Run(w: seq<Segment>, events: seq<Event<M>>)
      requires Valid() && OnlyLastGrows(w, events) && done <= Log(w)
      modifies this
      ensures Valid() && old(done) <= done <= Log(WorldAfter(w, events))
      ensures |done| == DoneAfter(apply, start, w, events, |old(done)|)
    {
      hide Log, Grows, Succeeds, DoneAfter, WorldAfter, Worker.Valid;
      NothingDone(apply, start, w, |done|);
      assert events[..0] == [];
      var world := w;
      for i := 0 to |events|
        invariant Valid() && world == WorldAfter(w, events[..i]) && Distinct(world)
        invariant old(done) <= done <= Log(world)
        invariant |done| == DoneAfter(apply, start, w, events[..i], |old(done)|)
      {
        WorldStep(w, events, i);
        DoneStep(apply, start, w, events, i, |old(done)|);
        match events[i] {
          case Grow(v) =>
            GrowthAppends(world, v);
            world := v;
          case Pass(max, faults, torn) =>
            var taken := Step(world, max, faults, torn);
          case NewProcess(lost) =>
            var ok := Restart(lost);
        }
      }
      assert events[..|events|] == events;
    }
  }

  lemma RecordsStep(seg: Segment, at: nat)
    requires at <= |seg.data| && LineEnd(seg.data, at).Some?
    ensures var e := LineEnd(seg.data, at).value;
      Records(seg, at) == [Record(seg.path, seg.data[at..e], e)] + Records(seg, e)
  {
  }

  lemma ReadStep(seg: Segment, at: nat)
    requires at <= |seg.data|
    ensures var e := LineEnd(seg.data, at);
      if e.None? then Records(seg, at) == [] && ReadEnd(seg, at) == at
      else Records(seg, at) != [] && ReadEnd(seg, at) == ReadEnd(seg, e.value)
  {
    hide LineEnd;
  }

  lemma NothingDone<M>(apply: (M, Record) -> Option<M>, start: M, w: seq<Segment>, n: nat)
    ensures DoneAfter(apply, start, w, [], n) == n && WorldAfter<M>(w, []) == w
  {
  }

  lemma DoneStep<M>(apply: (M, Record) -> Option<M>, start: M, w: seq<Segment>, events: seq<Event<M>>, i: nat, n: nat)
    requires i < |events|
    ensures var k, world := DoneAfter(apply, start, w, events[..i], n), WorldAfter(w, events[..i]);
      DoneAfter(apply, start, w, events[..i + 1], n) ==
      match events[i]
      case Pass(max, faults, _) =>
        if k <= |Log(world)| && Succeeds(apply, start, world, k, max, faults) then Min(k + max, |Log(world)|) else k
      case _ => k
  {
    hide Succeeds, Log;
    assert events[..i + 1][..i] == events[..i];
  }

  lemma WorldStep<M>(w: seq<Segment>, events: seq<Event<M>>, i: nat)
    requires i < |events|
    ensures WorldAfter(w, events[..i + 1]) ==
            if events[i].Grow? then events[i].world else WorldAfter(w, events[..i])
  {
    assert events[..i + 1][..i] == events[..i];
  }

  lemma ConsumedFits(w: seq<Segment>, i: nat, n: nat)
    requires i < |w|
    ensures Consumed(w, i, n) <= |Records(w[i], 0)|
  {
  }

  lemma NothingLeft(seg: Segment)
    ensures Records(seg, |seg.data|) == []
  {
  }

  lemma ReachedStart(w: seq<Segment>, done: seq<Record>)
    ensures done <= Log(w) ==> done == Reached(w, |done|, 0)
  {
  }

  lemma ReachedEnd(w: seq<Segment>, done: seq<Record>)
    ensures done <= Log(w) ==> Reached(w, |done|, |w|) == Log(w)
  {
    assert w[..|w|] == w;
  }

  /** After any growth of the last segment what was consumed is still the start of the log,
      and every saved offset still points just behind the last consumed record. */
  lemma CursorSurvivesGrowth(w: seq<Segment>, v: seq<Segment>, done: seq<Record>, i: nat)
    requires done <= Log(w) && Grows(w, v) && Distinct(v) && i < |v|
    ensures done <= Log(v)
    ensures OffsetIn(Offsets(done), v[i].path) == Resume(v[i], Consumed(v, i, |done|))
  {
    hide Log, Offsets, OffsetIn, Resume, Consumed;
    GrowthAppends(w, v);
    assert done == Log(v)[..|done|];
    OffsetIsResume(v, i, |done|);
  }

  lemma {:induction false} AfterDependsOnLater(w: seq<Segment>, v: seq<Segment>, i: nat)
    requires |w| == |v| && i < |w| && forall j :: i < j < |w| ==> v[j] == w[j]
    ensures After(v, i) == After(w, i)
    decreases |w|
  {
    hide Records;
    if i < |w| - 1 {
      AfterDependsOnLater(w[..|w| - 1], v[..|v| - 1], i);
    }
  }

  predicate EmptyFrom(w: seq<Segment>, i: nat) {
    forall j :: i < j < |w| ==> Records(w[j], 0) == []
  }

  lemma {:induction false} NothingAfter(w: seq<Segment>, i: nat)
    requires i < |w|
    ensures After(w, i) == [] <==> EmptyFrom(w, i)
    decreases |w|
  {
    hide Records;
    if i < |w| - 1 {
      var v, last := w[..|w| - 1], w[|w| - 1];
      NothingAfter(v, i);
      EmptyFromLast(w, i);
      hide EmptyFrom;
      assert |After(w, i)| == |After(v, i)| + |Records(last, 0)|;
    }
  }

  lemma EmptyFromLast(w: seq<Segment>, i: nat)
    requires i < |w| - 1
    ensures EmptyFrom(w, i) <==> EmptyFrom(w[..|w| - 1], i) && Records(w[|w| - 1], 0) == []
  {
    hide Records;
  }

  /** Segment i, not the last, gains complete records, and nothing else changes. */
  predicate EarlierGrows(w: seq<Segment>, v: seq<Segment>, i: nat) {
    && |v| == |w| && i < |w| - 1 && (forall j :: 0 <= j < |w| && j != i ==> v[j] == w[j])
    && v[i].path == w[i].path && w[i].data <= v[i].data && Records(v[i], 0) != Records(w[i], 0)
  }

  /** Then the old log is still the beginning of the new one exactly when no later segment has
      a record yet; otherwise records already taken in are out of order. */
  lemma EarlierGrowthReorders(w: seq<Segment>, v: seq<Segment>, i: nat)
    requires Distinct(w) && EarlierGrows(w, v, i)
    ensures Log(w) <= Log(v) <==> forall j :: i < j < |w| ==> Records(w[j], 0) == []
  {
    hide Log, Records, After;
    assert Distinct(v) && v[..i] == w[..i];
    RecordsGrow(w[i], v[i], 0);
    LogSplits(w, i);
    LogSplits(v, i);
    AfterDependsOnLater(w, v, i);
    NothingAfter(w, i);
    var before, own, later := Log(w[..i]), Records(w[i], 0), After(w, i);
    var gained := Records(v[i], 0)[|own|..];
    var k := |before| + |own|;
    assert Records(v[i], 0) == own + gained && gained != [];
    assert gained[0] in Records(v[i], 0) && Log(v)[k] == gained[0];
    assert later != [] ==> later[0] in later && Log(w)[k] == later[0];
    assert later == [] ==> Log(w) == before + own;
  }

  /** Such a growth, after the second segment was read. */
  lemma EarlierGrowthExample(a: Segment, b: Segment, c: Segment)
    requires a == Segment("a", [65, 10]) && b == Segment("b", [66, 10]) && c == Segment("a", [65, 10, 67, 10])
    ensures Distinct([a, b]) && EarlierGrows([a, b], [c, b], 0) && !(Log([a, b]) <= Log([c, b]))
  {
    hide Records, Log;
    assert a.path[0] != b.path[0];
    OneLine(a, 65);
    OneLine(b, 66);
    TwoLines(c);
    EarlierGrowthReorders([a, b], [c, b], 0);
    assert Records([a, b][1], 0) != [];
  }

  lemma OneLine(seg: Segment, x: u8)
    requires seg.data == [x, NEWLINE] && x != NEWLINE
    ensures Records(seg, 0) == [Record(seg.path, seg.data, 2)]
  {
    assert seg.data[0..] == seg.data && seg.data[1..] == [NEWLINE] && seg.data[0..2] == seg.data;
    assert IndexOf(seg.data[1..], NEWLINE) == 0;
    NothingLeft(seg);
  }

  lemma TwoLines(seg: Segment)
    requires seg.data == [65, 10, 67, 10]
    ensures |Records(seg, 0)| == 2
  {
    assert seg.data[0..] == seg.data && IndexOf(seg.data[1..], NEWLINE) == 0;
    assert IndexOf(seg.data[2..][1..], NEWLINE) == 0;
    NothingLeft(seg);
  }
}
