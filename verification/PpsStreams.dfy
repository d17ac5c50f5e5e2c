/** Streams of captured edges and outages through the pulse pipeline: what early extras,
    late edges and duplicates can and cannot do to it. */
module PpsStreams {
  import opened Words
  import opened EepromRecord
  import opened TunablesRuntime
  import opened PpsRuntime
  import opened PpsRuntimeHistory
  import V = PpsValidator
  import F = PpsEdgeFilter
  import D = FreqDiscipliner
  import T = DisciplinedTime

  datatype Happening = Edge(edge: u32, nowMs: u32, cfg: Config) | Outage(nowMs: u32, cfg: Config)

  function Happen(r: Runtime, x: Happening, nominal: u32): (r': Runtime)
    requires InRange(r)
    ensures InRange(r')
  {
    match x
    case Edge(edge, nowMs, cfg) => OnCapture(r, edge, nowMs, cfg, nominal)
    case Outage(nowMs, cfg) => OnOutage(r, nowMs, cfg, nominal)
  }

  function HappenAll(r: Runtime, xs: seq<Happening>, nominal: u32): (r': Runtime)
    requires InRange(r)
    ensures InRange(r')
    decreases |xs|
  {
    if |xs| == 0 then r else HappenAll(Happen(r, xs[0], nominal), xs[1..], nominal)
  }

  function SampleOf(r: Runtime, x: Happening, nominal: u32): F.Sample
    requires x.Edge?
  {
    F.FilterEdge(r.candidate, r.validator, x.edge, nominal)
  }

  predicate IsEarlyExtra(r: Runtime, x: Happening, nominal: u32) {
    x.Edge? && r.primed && SampleOf(r, x, nominal).earlyExtra
  }

  // ---- early extras leave no trace ----

  /** Everything but the freshness stamps. */
  function Core(r: Runtime): Runtime {
    r.(seenPrev := 0, lastIsrChangeMs := 0, lastProcessedMs := 0)
  }

  /** The stream with every early extra taken out. */
  function WithoutEarly(r: Runtime, xs: seq<Happening>, nominal: u32): seq<Happening>
    requires InRange(r)
    decreases |xs|
  {
    if |xs| == 0 then []
    else
      var rest := WithoutEarly(Happen(r, xs[0], nominal), xs[1..], nominal);
      if IsEarlyExtra(r, xs[0], nominal) then rest else [xs[0]] + rest
  }

  /** Wherever an early extra occurs, the reference is one that tells kinds apart. */
  predicate Undisturbed(r: Runtime, xs: seq<Happening>, nominal: u32)
    requires InRange(r)
    decreases |xs|
  {
    |xs| == 0 ||
    (&& (IsEarlyExtra(r, xs[0], nominal) ==> F.Coherent(r.validator) && F.Undisturbed(r.validator, nominal))
     && Undisturbed(Happen(r, xs[0], nominal), xs[1..], nominal))
  }

  lemma CoreDetermines(r: Runtime, q: Runtime, x: Happening, nominal: u32)
    requires InRange(r) && InRange(q) && Core(r) == Core(q)
    ensures Core(Happen(r, x, nominal)) == Core(Happen(q, x, nominal))
  {
    hide D.Step, V.Observe, T.Sync, F.FilterEdge, F.NextCandidate;
    assert r.candidate == Core(r).candidate && r.validator == Core(r).validator && r.primed == Core(r).primed;
    assert r.discipliner == Core(r).discipliner && r.exported == Core(r).exported && r.gps == Core(r).gps;
  }

  lemma {:induction false} CoreDeterminesAll(r: Runtime, q: Runtime, xs: seq<Happening>, nominal: u32)
    requires InRange(r) && InRange(q) && Core(r) == Core(q)
    ensures Core(HappenAll(r, xs, nominal)) == Core(HappenAll(q, xs, nominal))
    decreases |xs|
  {
    hide Happen, Core;
    if |xs| > 0 {
      CoreDetermines(r, q, xs[0], nominal);
      CoreDeterminesAll(Happen(r, xs[0], nominal), Happen(q, xs[0], nominal), xs[1..], nominal);
    }
  }

  lemma EarlyExtraKeepsCore(r: Runtime, x: Happening, nominal: u32)
    requires InRange(r) && IsEarlyExtra(r, x, nominal)
    requires F.Coherent(r.validator) && F.Undisturbed(r.validator, nominal)
    ensures Core(Happen(r, x, nominal)) == Core(r)
  {
    F.EarlyExtrasLeaveTheCandidate(r.validator, nominal);
    hide V.Classify, F.IsEarly, F.IsLate, F.Undisturbed, F.Coherent;
  }

  /** Early extras, any number of them anywhere in the stream, change nothing: filter,
      validator, discipliner, export and status end as if they had never been captured. */
  lemma {:induction false} EarlyExtrasLeaveNoTrace(r: Runtime, xs: seq<Happening>, nominal: u32)
    requires InRange(r) && Undisturbed(r, xs, nominal)
    ensures Core(HappenAll(r, xs, nominal)) == Core(HappenAll(r, WithoutEarly(r, xs, nominal), nominal))
    decreases |xs|
  {
    hide Happen, Core, IsEarlyExtra;
    if |xs| > 0 {
      var next := Happen(r, xs[0], nominal);
      var rest := WithoutEarly(next, xs[1..], nominal);
      EarlyExtrasLeaveNoTrace(next, xs[1..], nominal);
      if IsEarlyExtra(r, xs[0], nominal) {
        EarlyExtraKeepsCore(r, xs[0], nominal);
        CoreDeterminesAll(next, r, rest, nominal);
      } else {
        assert ([xs[0]] + rest)[1..] == rest;
      }
    }
  }

  // ---- ... except in the freshness stamps ----

  /** One turn of the main loop: the interrupt count it sees and the edges it takes, if any. */
  datatype Pass = Pass(seen: u32, edges: seq<u32>, nowMs: u32, cfg: Config)

  function OnPass(r: Runtime, p: Pass, nominal: u32): (r': Runtime)
    requires InRange(r)
    ensures InRange(r')
  {
    OnCaptures(Freshen(r, p.seen, p.nowMs, p.cfg, nominal), p.edges, p.nowMs, p.cfg, nominal)
  }

  function OnPasses(r: Runtime, ps: seq<Pass>, nominal: u32): (r': Runtime)
    requires InRange(r)
    ensures InRange(r')
  {
    if |ps| == 0 then r else OnPass(OnPasses(r, ps[..|ps| - 1], nominal), ps[|ps| - 1], nominal)
  }

  /** Pass p, made in state r, declares an outage. */
  predicate DeclaresOutage(r: Runtime, p: Pass) {
    Stale(if p.seen != r.seenPrev then r.(seenPrev := p.seen, lastIsrChangeMs := p.nowMs) else r, p.nowMs, p.cfg)
  }

  /** The interrupt count after these passes, and the time of the last pass that saw it move. */
  function SeenCount(seen: u32, ps: seq<Pass>): u32 {
    if |ps| == 0 then seen else ps[|ps| - 1].seen
  }

  function LastInterrupt(seen: u32, ms: u32, ps: seq<Pass>): u32 {
    if |ps| == 0 then ms
    else
      var before, p := ps[..|ps| - 1], ps[|ps| - 1];
      if p.seen != SeenCount(seen, before) then p.nowMs else LastInterrupt(seen, ms, before)
  }

  /** The time of the last pass that took an edge. */
  function LastTaken(ms: u32, ps: seq<Pass>): u32 {
    if |ps| == 0 then ms
    else if |ps[|ps| - 1].edges| > 0 then ps[|ps| - 1].nowMs
    else LastTaken(ms, ps[..|ps| - 1])
  }

  /** The last of these passes comes within the interrupt timeout of the last interrupt seen,
      itself included, and within the processing timeout of the last edge taken before it. */
  predicate Timely(r: Runtime, ps: seq<Pass>)
    requires |ps| > 0
  {
    var before, p := ps[..|ps| - 1], ps[|ps| - 1];
    && Sub32(p.nowMs, LastInterrupt(r.seenPrev, r.lastIsrChangeMs, ps)) <= IsrStaleMsActive(p.cfg)
    && Sub32(p.nowMs, LastTaken(r.lastProcessedMs, before)) <= StaleMsActive(p.cfg)
  }

  predicate AllTimely(r: Runtime, ps: seq<Pass>) {
    forall i :: 0 < i <= |ps| ==> Timely(r, ps[..i])
  }

  predicate NoOutage(r: Runtime, ps: seq<Pass>, nominal: u32)
    requires InRange(r)
  {
    forall i :: 0 <= i < |ps| ==> !DeclaresOutage(OnPasses(r, ps[..i], nominal), ps[i])
  }

  /** Every edge of the stream is an early extra, as seen from the candidate edge at its start. */
  predicate OnlyEarly(r: Runtime, ps: seq<Pass>, nominal: u32) {
    forall i, j :: 0 <= i < |ps| && 0 <= j < |ps[i].edges| ==> EarlyFrom(r, ps[i].edges[j], nominal)
  }

  predicate EarlyFrom(r: Runtime, edge: u32, nominal: u32) {
    F.FilterEdge(r.candidate, r.validator, edge, nominal).earlyExtra
  }

  predicate SameCore(r: Runtime, q: Runtime) {
    && q.candidate == r.candidate && q.validator == r.validator && q.discipliner == r.discipliner
    && q.exported == r.exported && q.primed == r.primed && q.gps == r.gps
  }

  /** Early extras in one pass leave everything but the processing stamp. */
  lemma {:induction false} EarlyPassKeepsCore(r: Runtime, edges: seq<u32>, nowMs: u32, cfg: Config, nominal: u32)
    requires InRange(r) && r.primed && F.Coherent(r.validator) && F.Undisturbed(r.validator, nominal)
    requires forall j :: 0 <= j < |edges| ==> EarlyFrom(r, edges[j], nominal)
    ensures var q := OnCaptures(r, edges, nowMs, cfg, nominal);
      && SameCore(r, q) && q.seenPrev == r.seenPrev && q.lastIsrChangeMs == r.lastIsrChangeMs
      && q.lastProcessedMs == if |edges| > 0 then nowMs else r.lastProcessedMs
  {
    hide OnCapture, F.FilterEdge, F.Undisturbed, F.Coherent;
    if |edges| > 0 {
      var before := edges[..|edges| - 1];
      EarlyPassKeepsCore(r, before, nowMs, cfg, nominal);
      EarlyEdgeKeepsCore(OnCaptures(r, before, nowMs, cfg, nominal), edges[|edges| - 1], nowMs, cfg, nominal);
    }
  }

  lemma EarlyEdgeKeepsCore(r: Runtime, edge: u32, nowMs: u32, cfg: Config, nominal: u32)
    requires InRange(r) && r.primed && F.Coherent(r.validator) && F.Undisturbed(r.validator, nominal)
    requires EarlyFrom(r, edge, nominal)
    ensures OnCapture(r, edge, nowMs, cfg, nominal) == r.(lastProcessedMs := nowMs)
  {
    F.EarlyExtrasLeaveTheCandidate(r.validator, nominal);
    hide V.Classify, F.IsEarly, F.IsLate, F.Undisturbed, F.Coherent;
  }

  /** Without an outage so far the stamps are the times of the last interrupt seen and the
      last edge taken, and nothing else has changed. */
  lemma {:induction false} StampsOfEarlyStream(r: Runtime, ps: seq<Pass>, nominal: u32)
    requires InRange(r) && r.primed && F.Coherent(r.validator) && F.Undisturbed(r.validator, nominal)
    requires OnlyEarly(r, ps, nominal) && NoOutage(r, ps, nominal)
    ensures var q := OnPasses(r, ps, nominal);
      && SameCore(r, q) && q.seenPrev == SeenCount(r.seenPrev, ps)
      && q.lastIsrChangeMs == LastInterrupt(r.seenPrev, r.lastIsrChangeMs, ps)
      && q.lastProcessedMs == LastTaken(r.lastProcessedMs, ps)
  {
    hide OnCaptures, OnOutage, Stale, EarlyFrom, F.Coherent, F.Undisturbed;
    if |ps| > 0 {
      var before, p := ps[..|ps| - 1], ps[|ps| - 1];
      PrefixStream(r, ps, nominal);
      StampsOfEarlyStream(r, before, nominal);
      var q := OnPasses(r, before, nominal);
      var noted := Freshen(q, p.seen, p.nowMs, p.cfg, nominal);
      SameEarly(r, noted, p.edges, nominal);
      EarlyPassKeepsCore(noted, p.edges, p.nowMs, p.cfg, nominal);
    }
  }

  lemma SameEarly(r: Runtime, q: Runtime, edges: seq<u32>, nominal: u32)
    requires q.candidate == r.candidate && q.validator == r.validator
    requires forall j :: 0 <= j < |edges| ==> EarlyFrom(r, edges[j], nominal)
    ensures forall j :: 0 <= j < |edges| ==> EarlyFrom(q, edges[j], nominal)
  {
  }

  lemma PrefixStream(r: Runtime, ps: seq<Pass>, nominal: u32)
    requires InRange(r) && |ps| > 0
    ensures var before, p := ps[..|ps| - 1], ps[|ps| - 1];
      && (NoOutage(r, ps, nominal) <==>
            NoOutage(r, before, nominal) && !DeclaresOutage(OnPasses(r, before, nominal), p))
      && (AllTimely(r, ps) <==> AllTimely(r, before) && Timely(r, ps))
      && (OnlyEarly(r, ps, nominal) ==> OnlyEarly(r, before, nominal))
      && (OnlyEarly(r, ps, nominal) ==> forall j :: 0 <= j < |p.edges| ==> EarlyFrom(r, p.edges[j], nominal))
  {
    hide OnPasses, DeclaresOutage, Timely, EarlyFrom;
    var before := ps[..|ps| - 1];
    assert forall i :: 0 <= i <= |before| ==> before[..i] == ps[..i];
    assert ps[..|ps|] == ps;
  }

  /** A stream of nothing but early extras, however long the true pulses have been missing,
      goes without an outage, its status, rates and validity unchanged, exactly when every
      pass comes within both timeouts of the last captured edge. */
  lemma {:induction false} EarlyExtrasHideAnOutage(r: Runtime, ps: seq<Pass>, nominal: u32)
    requires InRange(r) && r.primed && F.Coherent(r.validator) && F.Undisturbed(r.validator, nominal)
    requires OnlyEarly(r, ps, nominal)
    ensures NoOutage(r, ps, nominal) <==> AllTimely(r, ps)
    ensures NoOutage(r, ps, nominal) ==> SameCore(r, OnPasses(r, ps, nominal))
  {
    hide OnPasses, EarlyFrom, F.Coherent, F.Undisturbed, NoOutage, AllTimely, OnlyEarly, LastInterrupt, LastTaken;
    if |ps| == 0 {
      EmptyStream(r, ps, nominal);
    } else {
      var before := ps[..|ps| - 1];
      PrefixStream(r, ps, nominal);
      EarlyExtrasHideAnOutage(r, before, nominal);
      if NoOutage(r, before, nominal) {
        StampsOfEarlyStream(r, before, nominal);
        OutageIsLate(r, ps, OnPasses(r, before, nominal));
        if NoOutage(r, ps, nominal) {
          StampsOfEarlyStream(r, ps, nominal);
        }
      }
    }
  }

  lemma EmptyStream(r: Runtime, ps: seq<Pass>, nominal: u32)
    requires InRange(r) && ps == []
    ensures NoOutage(r, ps, nominal) && AllTimely(r, ps) && OnPasses(r, ps, nominal) == r
  {
  }

  lemma OutageIsLate(r: Runtime, ps: seq<Pass>, q: Runtime)
    requires |ps| > 0 && q.primed && q.seenPrev == SeenCount(r.seenPrev, ps[..|ps| - 1])
    requires q.lastIsrChangeMs == LastInterrupt(r.seenPrev, r.lastIsrChangeMs, ps[..|ps| - 1])
    requires q.lastProcessedMs == LastTaken(r.lastProcessedMs, ps[..|ps| - 1])
    ensures DeclaresOutage(q, ps[|ps| - 1]) <==> !Timely(r, ps)
  {
    hide SeenCount, LastTaken;
  }

  // ---- accepted and late intervals tile the time between candidates ----

  predicate OnlyEdges(xs: seq<Happening>) {
    forall i :: 0 <= i < |xs| ==> xs[i].Edge?
  }

  /** The accepted intervals of the stream, added up. */
  function AcceptedTime(r: Runtime, xs: seq<Happening>, nominal: u32): nat
    requires InRange(r)
    decreases |xs|
  {
    if |xs| == 0 then 0
    else
      var rest := AcceptedTime(Happen(r, xs[0], nominal), xs[1..], nominal);
      if xs[0].Edge? && r.primed && SampleOf(r, xs[0], nominal).cls == V.OK then
        SampleOf(r, xs[0], nominal).interval + rest
      else rest
  }

  predicate IsLateEdge(r: Runtime, x: Happening, nominal: u32) {
    && x.Edge? && r.primed && SampleOf(r, x, nominal).cls != V.OK
    && F.IsLate(r.validator, SampleOf(r, x, nominal).interval, nominal)
  }

  /** The late intervals of the stream, added up. */
  function LateTime(r: Runtime, xs: seq<Happening>, nominal: u32): nat
    requires InRange(r)
    decreases |xs|
  {
    if |xs| == 0 then 0
    else
      var rest := LateTime(Happen(r, xs[0], nominal), xs[1..], nominal);
      if IsLateEdge(r, xs[0], nominal) then SampleOf(r, xs[0], nominal).interval + rest else rest
  }

  lemma CandidateMoves(r: Runtime, x: Happening, nominal: u32)
    requires InRange(r) && r.primed && x.Edge?
    ensures var r', s := Happen(r, x, nominal), SampleOf(r, x, nominal);
      r'.primed && r'.candidate ==
        if s.cls == V.OK || IsLateEdge(r, x, nominal) then Wrap32(r.candidate + s.interval) else r.candidate
  {
    hide D.Step, V.Observe, T.Sync, V.Classify, F.IsLate;
  }

  lemma WrapAdds(c: u32, a: nat, b: nat)
    ensures Wrap32(Wrap32(c + a) + b) == Wrap32(c + (a + b))
  {
  }

  /** Between primings and outages the accepted and the late intervals sum, modulo 2^32, to
      the distance the candidate edge has moved, however many early extras came between. */
  lemma {:induction false} AcceptedIntervalsTelescope(r: Runtime, xs: seq<Happening>, nominal: u32)
    requires InRange(r) && r.primed && OnlyEdges(xs)
    ensures HappenAll(r, xs, nominal).primed
    ensures HappenAll(r, xs, nominal).candidate ==
            Wrap32(r.candidate + (AcceptedTime(r, xs, nominal) + LateTime(r, xs, nominal)))
    decreases |xs|
  {
    hide Happen, SampleOf, IsLateEdge;
    if |xs| > 0 {
      CandidateMoves(r, xs[0], nominal);
      var next := Happen(r, xs[0], nominal);
      AcceptedIntervalsTelescope(next, xs[1..], nominal);
      LateIsNotAccepted(r, xs[0], nominal);
      var moved := if SampleOf(r, xs[0], nominal).cls == V.OK || IsLateEdge(r, xs[0], nominal)
        then SampleOf(r, xs[0], nominal).interval else 0;
      WrapAdds(r.candidate, moved, AcceptedTime(next, xs[1..], nominal) + LateTime(next, xs[1..], nominal));
    }
  }

  lemma LateIsNotAccepted(r: Runtime, x: Happening, nominal: u32)
    requires x.Edge?
    ensures IsLateEdge(r, x, nominal) ==> SampleOf(r, x, nominal).cls != V.OK
  {
  }

  // ---- the reference never leaves the hull of what was accepted ----

  /** A clock fast enough for the hard-glitch band, and whose bands fit 32 bits. */
  predicate PlausibleClock(nominal: u32) {
    100_000 <= nominal && nominal * 13 / 10 < TWO32
  }

  predicate Within(x: nat, seen: seq<u32>) {
    && (exists i :: 0 <= i < |seen| && seen[i] <= x)
    && (exists i :: 0 <= i < |seen| && x <= seen[i])
  }

  /** `seen` are the intervals accepted since the last reset. */
  predicate Anchored(v: V.State, seen: seq<u32>, nominal: u32) {
    && F.Coherent(v) && v.recoveryCount == 0 && v.recoveryReseeds == 0
    && (forall i :: 0 <= i < |seen| ==> seen[i] > 0)
    && (v.refValid ==> Within(v.ref, seen))
    && (!v.refValid && v.seedCount > 0 ==> Within(v.seedCandidate, seen) && V.InOkBand(v.seedCandidate, nominal))
  }

  lemma WithinGrows(x: nat, seen: seq<u32>, n: u32)
    requires Within(x, seen)
    ensures Within(x, seen + [n])
  {
    var i :| 0 <= i < |seen| && seen[i] <= x;
    var j :| 0 <= j < |seen| && x <= seen[j];
    assert (seen + [n])[i] == seen[i] && (seen + [n])[j] == seen[j];
  }

  /** A value between a member and something already within is within. */
  lemma WithinBetween(x: nat, y: nat, n: u32, seen: seq<u32>)
    requires Within(x, seen) && n in seen && Min(x, n) <= y <= Max(x, n)
    ensures Within(y, seen)
  {
    var i :| 0 <= i < |seen| && seen[i] <= x;
    var j :| 0 <= j < |seen| && x <= seen[j];
    var k :| 0 <= k < |seen| && seen[k] == n;
  }

  lemma WithinItself(n: u32, seen: seq<u32>)
    requires n in seen
    ensures Within(n, seen)
  {
    var k :| 0 <= k < |seen| && seen[k] == n;
  }

  lemma SeedStaysAnchored(v: V.State, n: u32, nominal: u32, seen: seq<u32>)
    requires PlausibleClock(nominal) && Anchored(v, seen, nominal)
    requires !v.refValid && V.InOkBand(n, nominal) ==> n in seen
    ensures Anchored(V.Seed(v, n, nominal), seen, nominal)
    ensures !v.refValid && V.Seed(v, n, nominal).refValid ==>
      V.InOkBand(V.Seed(v, n, nominal).ref, nominal) && V.InOkBand(n, nominal)
  {
    hide Within, V.MutuallyConsistent, V.Mean;
    if !v.refValid && V.InOkBand(n, nominal) {
      WithinItself(n, seen);
      if v.seedCount > 0 {
        WithinBetween(v.seedCandidate, V.Mean(v.seedCandidate, v.seedCount, n), n, seen);
      }
    }
  }

  lemma TrackedBetween(ref: u32, n: u32)
    requires AbsDiff(n, ref) < TWO31
    ensures Min(ref, n) <= Wrap32(ref + AsInt32(n - ref) / 64) <= Max(ref, n)
  {
    assert AsInt32(n - ref) == n - ref;
  }

  lemma TrackBoundsRef(v: V.State, cls: V.SampleClass, n: u32)
    requires v.refValid && (cls == V.OK ==> AbsDiff(n, v.ref) < TWO31)
    ensures var ref := V.Track(v, cls, n).ref;
      if cls == V.OK then Min(v.ref, n) <= ref <= Max(v.ref, n) else ref == v.ref
  {
    if cls == V.OK {
      TrackedBetween(v.ref, n);
    }
  }

  lemma TrackStaysAnchored(v: V.State, cls: V.SampleClass, n: u32, nominal: u32, seen: seq<u32>)
    requires Anchored(v, seen, nominal)
    requires cls == V.OK ==> n in seen && (v.refValid ==> AbsDiff(n, v.ref) < TWO31)
    ensures Anchored(V.Track(v, cls, n), seen, nominal)
  {
    if cls == V.OK && v.refValid {
      TrackBoundsRef(v, cls, n);
      var ref := V.Track(v, cls, n).ref;
      WithinBetween(v.ref, ref, n, seen);
      assert ref > 0 by {
        var i :| 0 <= i < |seen| && seen[i] <= ref;
      }
      hide Within, AsInt32, Wrap32;
    }
  }

  lemma SeededRecoveryIdle(v: V.State, n: u32, nominal: u32)
    requires PlausibleClock(nominal) && v.refValid && v.ref != 0 && !F.IsEarly(v, n, nominal)
    ensures var cls := V.Classify(v, n, nominal);
      (cls == V.OK ==> AbsDiff(n, v.ref) <= V.HARD_TICKS) && !V.RecoveryApplies(V.Track(v, cls, n), n, nominal)
  {
    var cls := V.Classify(v, n, nominal);
    assert cls == V.OK ==> AbsDiff(n, v.ref) <= V.HARD_TICKS;
    assert v.ref >= V.HARD_TICKS ==> v.ref <= n + V.HARD_TICKS;
    hide V.Classify, F.IsEarly;
    TrackBoundsRef(v, cls, n);
    var ref := V.Track(v, cls, n).ref;
    hide V.Track;
    assert ref <= n + V.HARD_TICKS || ref < 2 * V.HARD_TICKS;
  }

  lemma FreshRecoveryIdle(v: V.State, cls: V.SampleClass, n: u32, nominal: u32)
    requires PlausibleClock(nominal) && (v.refValid ==> V.InOkBand(v.ref, nominal) && V.InOkBand(n, nominal))
    ensures v.refValid ==> AbsDiff(n, v.ref) < TWO31
    ensures !V.RecoveryApplies(V.Track(v, cls, n), n, nominal)
  {
    if v.refValid {
      TrackBoundsRef(v, cls, n);
      var ref := V.Track(v, cls, n).ref;
      hide V.Track;
      assert ref <= Max(v.ref, n);
    }
  }

  /** One observed sample: anchored stays anchored, and the recovery reseed does not fire. */
  lemma ObserveStaysAnchored(v: V.State, n: u32, nominal: u32, seen: seq<u32>)
    requires PlausibleClock(nominal) && Anchored(v, seen, nominal) && !F.IsEarly(v, n, nominal)
    ensures var cls := V.Classify(v, n, nominal);
      Anchored(V.Observe(v, cls, n, nominal), if cls == V.OK then seen + [n] else seen, nominal)
  {
    var cls := V.Classify(v, n, nominal);
    var after := if cls == V.OK then seen + [n] else seen;
    AcceptedIsPositive(v, n, nominal);
    if cls == V.OK {
      AnchoredGrows(v, n, nominal, seen);
    }
    var pushed := v.(recent := V.RingWindow.Last(v.recent + [cls], V.W_RATE));
    assert Anchored(pushed, after, nominal);
    SeedStaysAnchored(pushed, n, nominal, after);
    var seeded := V.Seed(pushed, n, nominal);
    if v.refValid {
      SeededRecoveryIdle(v, n, nominal);
      assert seeded == pushed;
      TrackIgnoresRing(v, pushed, cls, n, nominal);
    } else {
      FreshRecoveryIdle(seeded, cls, n, nominal);
    }
    hide V.Seed, V.Track, V.Classify, Within, V.RingWindow.Last, V.CountOf, F.IsEarly;
    TrackStaysAnchored(seeded, cls, n, nominal, after);
  }

  lemma TrackIgnoresRing(v: V.State, pushed: V.State, cls: V.SampleClass, n: u32, nominal: u32)
    requires pushed == v.(recent := pushed.recent)
    ensures V.RecoveryApplies(V.Track(v, cls, n), n, nominal) == V.RecoveryApplies(V.Track(pushed, cls, n), n, nominal)
  {
  }

  lemma AcceptedIsPositive(v: V.State, n: u32, nominal: u32)
    requires PlausibleClock(nominal) && F.Coherent(v)
    ensures V.Classify(v, n, nominal) == V.OK ==> n > 0
    ensures !v.refValid ==> (V.Classify(v, n, nominal) == V.OK <==> V.InOkBand(n, nominal))
  {
  }

  lemma AnchoredGrows(v: V.State, n: u32, nominal: u32, seen: seq<u32>)
    requires Anchored(v, seen, nominal) && n > 0
    ensures Anchored(v, seen + [n], nominal)
  {
    if v.refValid {
      WithinGrows(v.ref, seen, n);
    } else if v.seedCount > 0 {
      WithinGrows(v.seedCandidate, seen, n);
    }
    hide Within;
  }

  /** The intervals accepted since the last reset of the validator. */
  function SeenAfter(r: Runtime, x: Happening, seen: seq<u32>, nominal: u32): seq<u32>
    requires InRange(r)
  {
    if x.Outage? then []
    else
      var s := SampleOf(r, x, nominal);
      if r.primed && !s.earlyExtra && s.cls == V.OK then seen + [s.interval] else seen
  }

  function SeenAfterAll(r: Runtime, xs: seq<Happening>, seen: seq<u32>, nominal: u32): seq<u32>
    requires InRange(r)
    decreases |xs|
  {
    if |xs| == 0 then seen
    else SeenAfterAll(Happen(r, xs[0], nominal), xs[1..], SeenAfter(r, xs[0], seen, nominal), nominal)
  }

  lemma HappenStaysAnchored(r: Runtime, x: Happening, seen: seq<u32>, nominal: u32)
    requires InRange(r) && PlausibleClock(nominal) && Anchored(r.validator, seen, nominal)
    ensures Anchored(Happen(r, x, nominal).validator, SeenAfter(r, x, seen, nominal), nominal)
  {
    hide D.Step, T.Sync, V.Observe, V.Classify, Anchored;
    if x.Edge? && r.primed && !SampleOf(r, x, nominal).earlyExtra {
      ObserveStaysAnchored(r.validator, SampleOf(r, x, nominal).interval, nominal, seen);
    } else if x.Outage? {
      assert Anchored(V.RESET, [], nominal) by {
        ResetIsAnchored(nominal);
      }
    }
  }

  lemma ResetIsAnchored(nominal: u32)
    ensures Anchored(V.RESET, [], nominal)
  {
  }

  /** Over every stream from a reset: a reference in use lies between the smallest and the
      largest interval accepted since the validator was last reset, and the recovery reseed
      has never fired. */
  lemma {:induction false} ReferenceStaysAnchored(r: Runtime, xs: seq<Happening>, seen: seq<u32>, nominal: u32)
    requires InRange(r) && PlausibleClock(nominal) && Anchored(r.validator, seen, nominal)
    ensures Anchored(HappenAll(r, xs, nominal).validator, SeenAfterAll(r, xs, seen, nominal), nominal)
    decreases |xs|
  {
    hide Happen, SeenAfter, Anchored;
    if |xs| > 0 {
      HappenStaysAnchored(r, xs[0], seen, nominal);
      ReferenceStaysAnchored(Happen(r, xs[0], nominal), xs[1..], SeenAfter(r, xs[0], seen, nominal), nominal);
    }
  }

  // ---- a missed pulse costs one sample ----

  /** A late edge, whatever was missed before it, is the candidate that the next one is
      measured from; it leaves the reference as it is, and is no accepted sample. */
  lemma LateEdgeIsCandidate(r: Runtime, x: Happening, nominal: u32)
    requires InRange(r) && PlausibleClock(nominal) && r.primed && x.Edge?
    requires F.Coherent(r.validator) && 66667 <= r.validator.ref < TWO32 - V.HARD_TICKS
    requires F.IsLate(r.validator, SampleOf(r, x, nominal).interval, nominal)
    ensures var r' := Happen(r, x, nominal);
      && r'.primed && r'.candidate == x.edge
      && F.Coherent(r'.validator) && r'.validator.ref == r.validator.ref
      && SampleOf(r, x, nominal).cls in {V.GAP, V.HARD_GLITCH} && !IsEarlyExtra(r, x, nominal)
  {
    var v, n := r.validator, SampleOf(r, x, nominal).interval;
    F.KindsPartition(v, nominal);
    assert F.ExactlyOneKind(v, n, nominal);
    SeededRecoveryIdle(v, n, nominal);
    LateKeepsReference(v, n, nominal);
    hide D.Step, T.Sync, V.Observe, F.IsEarly, F.IsLate, V.Classify;
  }

  lemma LateKeepsReference(v: V.State, n: u32, nominal: u32)
    requires v.refValid && 66667 <= v.ref < TWO32 - V.HARD_TICKS && F.IsLate(v, n, nominal)
    requires !V.RecoveryApplies(V.Track(v, V.Classify(v, n, nominal), n), n, nominal)
    ensures var cls := V.Classify(v, n, nominal);
      && cls in {V.GAP, V.HARD_GLITCH}
      && V.Observe(v, cls, n, nominal).refValid && V.Observe(v, cls, n, nominal).ref == v.ref
  {
    hide V.InOkBand, V.CountOf, V.RingWindow.Last, V.Mean, V.MutuallyConsistent;
  }

  /** After a late edge the next edge within the hard-glitch band of the reference is sampled
      with the true interval between the two, and accepted. */
  lemma MissedPulseRecovers(r: Runtime, x: Happening, y: Happening, t1: int, t2: int, nominal: u32)
    requires InRange(r) && PlausibleClock(nominal) && r.primed && x.Edge? && y.Edge?
    requires F.Coherent(r.validator) && 66667 <= r.validator.ref < TWO32 - V.HARD_TICKS
    requires F.IsLate(r.validator, SampleOf(r, x, nominal).interval, nominal)
    requires x.edge == Wrap32(t1) && y.edge == Wrap32(t2)
    requires r.validator.ref - V.HARD_TICKS <= t2 - t1 <= r.validator.ref + V.HARD_TICKS
    ensures var r' := Happen(r, x, nominal);
      && SampleOf(r', y, nominal) == F.Sample(t2 - t1, V.OK, false)
      && Happen(r', y, nominal).candidate == y.edge
  {
    LateEdgeIsCandidate(r, x, nominal);
    var r' := Happen(r, x, nominal);
    Elapsed(t1, t2);
    InBandIsAccepted(r'.validator, t2 - t1, nominal);
    hide Happen, F.IsEarly, V.Classify, F.Coherent;
    CandidateMoves(r', y, nominal);
    Returns(t1, t2);
  }

  lemma Elapsed(t1: int, t2: int)
    requires 0 <= t2 - t1 < TWO32
    ensures Sub32(Wrap32(t2), Wrap32(t1)) == t2 - t1
  {
  }

  lemma Returns(t1: int, t2: int)
    ensures Wrap32(Wrap32(t1) + (t2 - t1)) == Wrap32(t2)
  {
  }

  lemma InBandIsAccepted(v: V.State, n: u32, nominal: u32)
    requires F.Coherent(v) && 66667 <= v.ref < TWO32 - V.HARD_TICKS
    requires v.ref - V.HARD_TICKS <= n <= v.ref + V.HARD_TICKS
    ensures V.Classify(v, n, nominal) == V.OK && !F.IsEarly(v, n, nominal)
  {
  }

  predicate AllBetween(lo: nat, hi: nat, seen: seq<u32>) {
    forall i :: 0 <= i < |seen| ==> lo <= seen[i] <= hi
  }

  /** Every interval that is accepted somewhere in the stream lies between lo and hi. */
  predicate AcceptedBetween(r: Runtime, xs: seq<Happening>, lo: nat, hi: nat, nominal: u32)
    requires InRange(r)
    decreases |xs|
  {
    |xs| == 0 ||
    (&& AllBetween(lo, hi, SeenAfter(r, xs[0], [], nominal))
     && AcceptedBetween(Happen(r, xs[0], nominal), xs[1..], lo, hi, nominal))
  }

  lemma AnchoredIsUndisturbed(v: V.State, seen: seq<u32>, lo: nat, hi: nat, nominal: u32)
    requires PlausibleClock(nominal) && Anchored(v, seen, nominal) && AllBetween(lo, hi, seen)
    requires V.HARD_TICKS <= lo && hi < TWO32 - V.HARD_TICKS
    ensures F.Coherent(v) && F.Undisturbed(v, nominal)
  {
    if v.refValid {
      var i :| 0 <= i < |seen| && seen[i] <= v.ref;
      var j :| 0 <= j < |seen| && v.ref <= seen[j];
    }
  }

  lemma SeenGrows(r: Runtime, x: Happening, seen: seq<u32>, lo: nat, hi: nat, nominal: u32)
    requires InRange(r) && AllBetween(lo, hi, seen) && AllBetween(lo, hi, SeenAfter(r, x, [], nominal))
    ensures AllBetween(lo, hi, SeenAfter(r, x, seen, nominal))
  {
    hide SampleOf;
    if SeenAfter(r, x, seen, nominal) != seen && x.Edge? {
      assert SeenAfter(r, x, [], nominal)[0] == SampleOf(r, x, nominal).interval;
    }
  }

  lemma {:induction false} BoundedIsUndisturbed(r: Runtime, xs: seq<Happening>, seen: seq<u32>, lo: nat, hi: nat,
                                                nominal: u32)
    requires InRange(r) && PlausibleClock(nominal) && Anchored(r.validator, seen, nominal) && AllBetween(lo, hi, seen)
    requires V.HARD_TICKS <= lo && hi < TWO32 - V.HARD_TICKS && AcceptedBetween(r, xs, lo, hi, nominal)
    ensures Undisturbed(r, xs, nominal)
    decreases |xs|
  {
    hide Happen, SeenAfter, Anchored, AllBetween, IsEarlyExtra, F.Coherent, F.Undisturbed;
    if |xs| > 0 {
      AnchoredIsUndisturbed(r.validator, seen, lo, hi, nominal);
      HappenStaysAnchored(r, xs[0], seen, nominal);
      SeenGrows(r, xs[0], seen, lo, hi, nominal);
      BoundedIsUndisturbed(Happen(r, xs[0], nominal), xs[1..], SeenAfter(r, xs[0], seen, nominal), lo, hi, nominal);
    }
  }

  /** From a reset on, bounds on the accepted intervals alone are enough for early extras to
      leave no trace: none accepted is within the hard-glitch band of either end of 32 bits. */
  lemma UsualIntervalsLeaveNoTrace(r: Runtime, xs: seq<Happening>, lo: nat, hi: nat, nominal: u32)
    requires InRange(r) && PlausibleClock(nominal) && r.validator == V.RESET
    requires V.HARD_TICKS <= lo && hi < TWO32 - V.HARD_TICKS && AcceptedBetween(r, xs, lo, hi, nominal)
    ensures Core(HappenAll(r, xs, nominal)) == Core(HappenAll(r, WithoutEarly(r, xs, nominal), nominal))
  {
    hide Undisturbed, AcceptedBetween, HappenAll, WithoutEarly, Core, Anchored;
    ResetIsAnchored(nominal);
    BoundedIsUndisturbed(r, xs, [], lo, hi, nominal);
    EarlyExtrasLeaveNoTrace(r, xs, nominal);
  }

  /** Whatever reaches the class ring is not a duplicate, unless the reference is small. */
  lemma NoDuplicateIsObserved(r: Runtime, x: Happening, nominal: u32)
    requires InRange(r) && x.Edge? && r.primed && !IsEarlyExtra(r, x, nominal) && F.Coherent(r.validator)
    requires r.validator.ref < V.HARD_TICKS || r.validator.ref >= 28572
    ensures SampleOf(r, x, nominal).cls != V.DUP
  {
    if r.validator.refValid {
      F.DuplicatesAreEarly(r.validator, nominal);
    }
  }

  // ---- whole stretches of holdover and of grace ----

  lemma HappenKeepsConsistent(r: Runtime, x: Happening, nominal: u32)
    requires InRange(r) && Consistent(r, nominal)
    ensures Consistent(Happen(r, x, nominal), nominal)
  {
    hide OnCapture, OnOutage, Consistent;
    match x
    case Edge(edge, nowMs, cfg) => CaptureKeepsConsistent(r, edge, nowMs, cfg, nominal);
    case Outage(nowMs, cfg) => OutageKeepsConsistent(r, nowMs, cfg, nominal);
  }

  /** From the first happening on the discipliner is in HOLDOVER. */
  predicate HeldThroughout(r: Runtime, xs: seq<Happening>, nominal: u32)
    requires InRange(r)
    decreases |xs|
  {
    |xs| == 0 ||
    (&& Happen(r, xs[0], nominal).discipliner.state == D.HOLDOVER
     && HeldThroughout(Happen(r, xs[0], nominal), xs[1..], nominal))
  }

  lemma HoldStep(r: Runtime, x: Happening, nominal: u32)
    requires InRange(r) && Consistent(r, nominal) && r.discipliner.state in {D.DISCIPLINED, D.HOLDOVER}
    requires Happen(r, x, nominal).discipliner.state == D.HOLDOVER
    ensures Happen(r, x, nominal).discipliner.fHat == r.discipliner.fHat
    ensures Happen(r, x, nominal).exported.fHat == OrNominal(r.discipliner.fHat, nominal)
  {
    HappenKeepsConsistent(r, x, nominal);
    hide D.Step, V.Observe, T.Sync, F.FilterEdge, F.NextCandidate;
    match x
    case Edge(edge, nowMs, cfg) =>
      var s := SampleOf(r, x, nominal);
      var v := V.Observe(r.validator, s.cls, s.interval, nominal);
      StepKeepsRates(r.discipliner, D.Input(s.cls, v.ppsValid, s.interval, nowMs, s.cls != V.OK, cfg));
    case Outage(nowMs, cfg) =>
      StepKeepsRates(r.discipliner, D.Input(V.GAP, false, nominal, nowMs, true, cfg));
  }

  /** Throughout a stretch of holdover, entered from a lock or already running, the applied
      rate and the exported one stay what the applied rate was at its start. */
  lemma {:induction false} HoldoverFreezesTheRate(r: Runtime, xs: seq<Happening>, nominal: u32)
    requires InRange(r) && Consistent(r, nominal) && r.discipliner.state in {D.DISCIPLINED, D.HOLDOVER}
    requires HeldThroughout(r, xs, nominal)
    ensures HappenAll(r, xs, nominal).discipliner.fHat == r.discipliner.fHat
    ensures |xs| > 0 ==> HappenAll(r, xs, nominal).exported.fHat == OrNominal(r.discipliner.fHat, nominal)
    decreases |xs|
  {
    hide Happen, Consistent;
    if |xs| > 0 {
      HoldStep(r, xs[0], nominal);
      HappenKeepsConsistent(r, xs[0], nominal);
      HoldoverFreezesTheRate(Happen(r, xs[0], nominal), xs[1..], nominal);
    }
  }

  predicate GraceThroughout(r: Runtime, xs: seq<Happening>, nominal: u32)
    requires InRange(r)
    decreases |xs|
  {
    && r.exported.mode == T.SLOW_GRACE
    && (|xs| > 0 ==> GraceThroughout(Happen(r, xs[0], nominal), xs[1..], nominal))
  }

  lemma GraceStep(r: Runtime, x: Happening, nominal: u32)
    requires InRange(r) && Consistent(r, nominal)
    requires r.exported.mode == T.SLOW_GRACE && Happen(r, x, nominal).exported.mode == T.SLOW_GRACE
    ensures Happen(r, x, nominal).exported.fHat == r.exported.fHat
  {
    HappenKeepsConsistent(r, x, nominal);
    hide D.Step, V.Observe, T.Sync, F.FilterEdge, F.NextCandidate, OnCapture, OnOutage;
    match x
    case Edge(edge, nowMs, cfg) => GraceHoldsTheUnlockingRate(r, edge, nowMs, cfg, nominal);
    case Outage(nowMs, cfg) => OutageKeepsConsistent(r, nowMs, cfg, nominal);
  }

  /** Throughout a stretch of grace the exported rate does not move. */
  lemma {:induction false} GraceHoldsTheRate(r: Runtime, xs: seq<Happening>, nominal: u32)
    requires InRange(r) && Consistent(r, nominal) && GraceThroughout(r, xs, nominal)
    ensures HappenAll(r, xs, nominal).exported.fHat == r.exported.fHat
    decreases |xs|
  {
    hide Happen, Consistent;
    if |xs| > 0 {
      GraceStep(r, xs[0], nominal);
      HappenKeepsConsistent(r, xs[0], nominal);
      GraceHoldsTheRate(Happen(r, xs[0], nominal), xs[1..], nominal);
    }
  }
}
