/** What the pulse pipeline must do in the end: return to the nominal rate when the pulses stay
    away, and lock on to them when they come steadily. */
module PpsLiveness {
  import opened Words
  import opened EepromRecord
  import opened TunablesRuntime
  import opened PpsRuntime
  import opened PpsStreams
  import V = PpsValidator
  import F = PpsEdgeFilter
  import D = FreqDiscipliner
  import T = DisciplinedTime
  import L = DisciplinerLiveness
  import VH = PpsValidatorHistory

  // ---- when the pulses stay away ----

  lemma InvalidCallIdles(d: D.State, i: D.Input)
    requires D.InRange(d) && !i.ppsValid
    ensures D.Step(d, i).state in {D.FREE_RUN, D.HOLDOVER}
  {
    hide D.Evaluate, Sub32, HoldoverMsActive;
  }

  /** An outage forgets the pulses before it: the discipliner runs free or holds, and the next
      edge is not sampled but only becomes the candidate to measure from. */
  lemma OutageForgets(r: Runtime, x: Happening, y: Happening, nominal: u32)
    requires InRange(r) && x.Outage? && y.Edge?
    ensures var r', r'' := Happen(r, x, nominal), Happen(Happen(r, x, nominal), y, nominal);
      && !r'.primed && r'.validator == V.RESET && r'.gps == NO_PPS
      && r'.discipliner.state in {D.FREE_RUN, D.HOLDOVER}
      && r''.primed && r''.candidate == y.edge && r''.validator == V.RESET
      && r''.discipliner == r'.discipliner && r''.exported == r'.exported && r''.gps == NO_PPS
  {
    InvalidCallIdles(r.discipliner, D.Input(V.GAP, false, nominal, x.nowMs, true, x.cfg));
    hide D.Step, T.Sync;
  }

  /** Outage x comes later than the holdover time after `start`. */
  predicate RunsOut(start: u32, x: Happening) {
    Sub32(x.nowMs, start) > HoldoverMsActive(x.cfg)
  }

  lemma HoldoverCall(d: D.State, i: D.Input)
    requires D.InRange(d) && !i.ppsValid
    ensures var d' := D.Step(d, i);
      && (d.state == D.FREE_RUN ==> d'.state == D.FREE_RUN)
      && (d.state == D.HOLDOVER ==>
            && d'.state == (if Sub32(i.nowMs, d.holdoverStartMs) > HoldoverMsActive(i.cfg) then D.FREE_RUN
                            else D.HOLDOVER)
            && d'.holdoverStartMs == d.holdoverStartMs && d'.lastGoodSlow == d.lastGoodSlow)
  {
    hide D.Evaluate, Sub32, HoldoverMsActive;
  }

  /** The outage that ends a lock begins a holdover at that moment, at the slow rate. */
  lemma OutageEndsLock(r: Runtime, x: Happening, nominal: u32)
    requires InRange(r) && x.Outage? && r.discipliner.state == D.DISCIPLINED
    ensures var d, r' := r.discipliner, Happen(r, x, nominal);
      && r'.discipliner.state == D.HOLDOVER && r'.discipliner.holdoverStartMs == x.nowMs
      && r'.discipliner.lastGoodSlow == d.fSlow
      && r'.exported.mode == T.SLOW_HOLDOVER && r'.exported.fHat == OrNominal(d.fSlow, nominal)
  {
    LockLost(r.discipliner, D.Input(V.GAP, false, nominal, x.nowMs, true, x.cfg));
    hide D.Step, OrNominal;
  }

  lemma LockLost(d: D.State, i: D.Input)
    requires D.InRange(d) && !i.ppsValid && d.state == D.DISCIPLINED
    ensures var d' := D.Step(d, i);
      d'.state == D.HOLDOVER && d'.holdoverStartMs == i.nowMs && d'.lastGoodSlow == d.fSlow
  {
    hide D.Evaluate;
  }

  lemma GapEndsValidity(v: V.State, n: u32, nominal: u32)
    requires v.refValid && 17 * v.ref < 10 * n
    ensures V.Classify(v, n, nominal) == V.GAP && !V.Observe(v, V.GAP, n, nominal).ppsValid
  {
    hide V.CountOf, V.RingWindow.Last, V.Mean, V.MutuallyConsistent, V.InOkBand;
  }

  /** An edge more than seven tenths of a reference too late ends a lock: the discipliner holds
      over, at the slow rate, and the edge is the one to measure from. */
  lemma MissedPulseEndsLock(r: Runtime, x: Happening, t0: int, t1: int, nominal: u32)
    requires InRange(r) && r.primed && r.discipliner.state == D.DISCIPLINED && x.Edge?
    requires F.Coherent(r.validator) && 66667 <= r.validator.ref < TWO32 - V.HARD_TICKS
    requires r.candidate == Wrap32(t0) && x.edge == Wrap32(t1)
    requires 17 * r.validator.ref < 10 * (t1 - t0) && t1 - t0 < TWO32
    ensures var d, r' := r.discipliner, Happen(r, x, nominal);
      && r'.candidate == x.edge && !r'.validator.ppsValid && r'.gps == GpsStatus.HOLDOVER
      && r'.discipliner.state == D.HOLDOVER && r'.discipliner.holdoverStartMs == x.nowMs
      && r'.exported.mode == T.SLOW_HOLDOVER && r'.exported.fHat == OrNominal(d.fSlow, nominal)
  {
    PpsStreams.Elapsed(t0, t1);
    GapEndsValidity(r.validator, t1 - t0, nominal);
    LockLost(r.discipliner, D.Input(V.GAP, false, t1 - t0, x.nowMs, true, x.cfg));
    hide D.Step, V.Observe, V.Classify, OrNominal;
  }

  lemma OneOutage(r: Runtime, x: Happening, nominal: u32)
    requires InRange(r) && x.Outage? && r.discipliner.state in {D.HOLDOVER, D.FREE_RUN}
    ensures var d, r' := r.discipliner, Happen(r, x, nominal);
      var held := d.state == D.HOLDOVER && !RunsOut(d.holdoverStartMs, x);
      && r'.discipliner.state == (if held then D.HOLDOVER else D.FREE_RUN)
      && (held ==> r'.discipliner.holdoverStartMs == d.holdoverStartMs && r'.discipliner.lastGoodSlow == d.lastGoodSlow)
      && r'.exported.mode == (if held then T.SLOW_HOLDOVER else T.NOMINAL)
      && r'.exported.fHat == OrNominal(if held then d.lastGoodSlow else nominal, nominal)
  {
    HoldoverCall(r.discipliner, D.Input(V.GAP, false, nominal, x.nowMs, true, x.cfg));
    hide D.Step, Sub32, HoldoverMsActive, OrNominal;
  }

  /** While nothing but outages happens, the good rate is exported up to the first that comes
      later than the holdover time, and the nominal one from then on, for good. */
  lemma {:induction false} HoldoverRunsOut(r: Runtime, xs: seq<Happening>, nominal: u32)
    requires InRange(r) && |xs| > 0 && forall i :: 0 <= i < |xs| ==> xs[i].Outage?
    requires r.discipliner.state in {D.HOLDOVER, D.FREE_RUN}
    ensures var d, r' := r.discipliner, HappenAll(r, xs, nominal);
      var over := d.state == D.FREE_RUN || exists i :: 0 <= i < |xs| && RunsOut(d.holdoverStartMs, xs[i]);
      && r'.discipliner.state == (if over then D.FREE_RUN else D.HOLDOVER)
      && r'.exported.mode == (if over then T.NOMINAL else T.SLOW_HOLDOVER)
      && r'.exported.fHat == OrNominal(if over then nominal else d.lastGoodSlow, nominal)
    decreases |xs|
  {
    hide Happen, RunsOut, OrNominal;
    var next, rest := Happen(r, xs[0], nominal), xs[1..];
    OneOutage(r, xs[0], nominal);
    assert forall i :: 0 <= i < |rest| ==> rest[i] == xs[i + 1];
    if |rest| > 0 {
      HoldoverRunsOut(next, rest, nominal);
      SomeLater(r.discipliner.holdoverStartMs, xs);
    } else {
      assert HappenAll(next, rest, nominal) == next;
    }
  }

  lemma SomeLater(start: u32, xs: seq<Happening>)
    requires |xs| > 0
    ensures (exists i :: 0 <= i < |xs| && RunsOut(start, xs[i])) <==>
            RunsOut(start, xs[0]) || exists i :: 0 <= i < |xs[1..]| && RunsOut(start, xs[1..][i])
  {
    hide RunsOut;
    if i :| 0 < i < |xs| && RunsOut(start, xs[i]) {
      assert RunsOut(start, xs[1..][i - 1]);
    }
  }

  // ---- when the pulses come steadily ----

  /** The validator after k accepted intervals of one length since its reset. */
  predicate Settled(v: V.State, n: u32, k: nat) {
    && v.recoveryCount == 0 && v.okStreak == k % 0x1_0000 && (v.ppsValid <==> k >= V.VALID_RUN)
    && (forall i :: 0 <= i < |v.recent| ==> v.recent[i] == V.OK)
    && (if k < V.SEEDS_REQUIRED then !v.refValid && v.ref == 0 && v.seedCount == k && (k > 0 ==> v.seedCandidate == n)
        else v.refValid && v.ref == n)
  }

  predicate Plausible(n: u32, nominal: u32) {
    PlausibleClock(nominal) && V.InOkBand(n, nominal)
  }

  lemma SettledAccepts(v: V.State, n: u32, k: nat, nominal: u32)
    requires Settled(v, n, k) && Plausible(n, nominal)
    ensures V.Classify(v, n, nominal) == V.OK && !F.IsEarly(v, n, nominal)
  {
    hide V.CountOf;
  }

  lemma MeanOfSame(n: u32, k: nat)
    ensures V.Mean(n, k, n) == n && V.MutuallyConsistent(n, n, V.STARTUP_CONSISTENCY)
  {
    assert AbsDiff(n, n) == 0;
  }

  lemma SettledSeeds(v: V.State, n: u32, k: nat, nominal: u32)
    requires Settled(v, n, k) && Plausible(n, nominal)
    ensures var s := V.Seed(v, n, nominal);
      && s.okStreak == v.okStreak && s.ppsValid == v.ppsValid && s.recent == v.recent && s.recoveryCount == 0
      && (if k + 1 < V.SEEDS_REQUIRED then !s.refValid && s.ref == 0 && s.seedCount == k + 1 && s.seedCandidate == n
          else s.refValid && s.ref == n)
  {
    MeanOfSame(n, v.seedCount);
    hide V.Mean, V.MutuallyConsistent, V.InOkBand;
  }

  lemma TracksItself(v: V.State, n: u32, nominal: u32)
    requires Plausible(n, nominal) && (v.refValid ==> v.ref == n) && v.recoveryCount == 0
    ensures var w := V.Track(v, V.OK, n);
      && w == v.(okStreak := (v.okStreak + 1) % 0x1_0000)
      && V.Recover(w, n, nominal) == w.(recoveryCandidate := 0)
  {
    assert v.refValid ==> AsInt32(n - v.ref) == 0;
    hide V.Mean, V.MutuallyConsistent, AsInt32;
  }

  lemma SettledObserves(v: V.State, n: u32, k: nat, nominal: u32)
    requires Settled(v, n, k) && Plausible(n, nominal)
    ensures Settled(V.Observe(v, V.OK, n, nominal), n, k + 1)
  {
    var pushed := v.(recent := V.RingWindow.Last(v.recent + [V.OK], V.W_RATE));
    assert Settled(pushed, n, k);
    SettledSeeds(pushed, n, k, nominal);
    var seeded := V.Seed(pushed, n, nominal);
    hide V.Seed, Plausible;
    TracksItself(seeded, n, nominal);
    hide V.Track, V.Recover, V.CountOf;
    VH.AllOkHaveNoGlitch(pushed.recent);
    StreakGoesOn(k);
  }

  lemma StreakGoesOn(k: nat)
    ensures (k % 0x1_0000 + 1) % 0x1_0000 == (k + 1) % 0x1_0000
    ensures k < V.VALID_RUN ==> (k + 1) % 0x1_0000 == k + 1
  {
  }

  /** What the capture hardware shows of pulse j of a train n ticks apart that begins at the
      true tick `start`. */
  function PulseTick(start: int, j: int, n: u32): u32 {
    Wrap32(start + j * n)
  }

  /** Such a train, under one configuration. */
  predicate SteadyPulses(xs: seq<Happening>, start: int, n: u32, cfg: Config) {
    forall i :: 0 <= i < |xs| ==> xs[i] == Edge(PulseTick(start, i, n), xs[i].nowMs, cfg)
  }

  lemma LastOfTrain(xs: seq<Happening>, start: int, n: u32, cfg: Config)
    requires SteadyPulses(xs, start, n, cfg) && |xs| > 0
    ensures xs[|xs| - 1] == Edge(PulseTick(start, |xs| - 1, n), xs[|xs| - 1].nowMs, cfg)
    ensures SteadyPulses(xs[..|xs| - 1], start, n, cfg)
  {
    hide PulseTick;
  }

  /** The calls of the discipliner from the sixth pulse on, when the train counts as valid. */
  function ValidCalls(xs: seq<Happening>, n: u32, cfg: Config): (h: seq<D.Input>)
    ensures |h| == (if |xs| > V.VALID_RUN then |xs| - V.VALID_RUN else 0) && L.Steady(h, n, cfg)
  {
    if |xs| <= V.VALID_RUN then []
    else
      seq(|xs| - V.VALID_RUN,
          i requires 0 <= i < |xs| - V.VALID_RUN => D.Input(V.OK, true, n, xs[i + V.VALID_RUN].nowMs, false, cfg))
  }

  function ValidCall(nowMs: u32, n: u32, cfg: Config): D.Input {
    D.Input(V.OK, true, n, nowMs, false, cfg)
  }

  lemma ValidCallsGrow(xs: seq<Happening>, n: u32, cfg: Config)
    requires |xs| > V.VALID_RUN
    ensures var last := |xs| - 1;
      ValidCalls(xs, n, cfg) == ValidCalls(xs[..last], n, cfg) + [ValidCall(xs[last].nowMs, n, cfg)]
  {
  }

  lemma {:induction false} HappenLast(r: Runtime, xs: seq<Happening>, nominal: u32)
    requires InRange(r) && |xs| > 0
    ensures HappenAll(r, xs, nominal) == Happen(HappenAll(r, xs[..|xs| - 1], nominal), xs[|xs| - 1], nominal)
    decreases |xs|
  {
    hide Happen;
    if |xs| == 1 {
      assert xs[..0] == [] && xs[1..] == [];
    } else {
      HappenLast(Happen(r, xs[0], nominal), xs[1..], nominal);
      assert xs[1..][..|xs| - 2] == xs[..|xs| - 1][1..];
    }
  }

  lemma PulseInterval(start: int, j: nat, n: u32)
    requires j > 0
    ensures Sub32(PulseTick(start, j, n), PulseTick(start, j - 1, n)) == n
  {
    assert j * n == (j - 1) * n + n;
    PpsStreams.Elapsed(start + (j - 1) * n, start + j * n);
  }

  /** Pulse j of the train, with j - 1 intervals accepted before it. */
  lemma OnePulse(r: Runtime, x: Happening, start: int, j: nat, n: u32, cfg: Config, nominal: u32)
    requires InRange(r) && r.primed && j > 0 && Plausible(n, nominal) && Settled(r.validator, n, j - 1)
    requires r.candidate == PulseTick(start, j - 1, n) && x == Edge(PulseTick(start, j, n), x.nowMs, cfg)
    ensures var r' := Happen(r, x, nominal);
      var valid := j >= V.VALID_RUN;
      && r'.primed && r'.candidate == x.edge && Settled(r'.validator, n, j)
      && r'.discipliner == D.Step(r.discipliner, D.Input(V.OK, valid, n, x.nowMs, false, cfg))
      && r'.gps == StatusOf(r'.discipliner.state)
      && r'.exported == T.Sync(r.exported, r'.discipliner, valid, x.nowMs, cfg, nominal)
  {
    PulseInterval(start, j, n);
    SettledAccepts(r.validator, n, j - 1, nominal);
    SettledObserves(r.validator, n, j - 1, nominal);
    hide D.Step, T.Sync, V.Observe, V.Classify, F.IsEarly, F.IsLate, Plausible, PulseTick;
    assert Settled(V.Observe(r.validator, V.OK, n, nominal), n, j);
    assert F.FilterEdge(r.candidate, r.validator, x.edge, nominal) == F.Sample(n, V.OK, false);
  }

  /** A locked discipliner shows as LOCKED, and its slow rate is the one exported. */
  predicate ShowsLock(r: Runtime, nominal: u32) {
    r.discipliner.state == D.DISCIPLINED ==>
      && r.gps == LOCKED && r.exported.mode == T.SLOW_TRACK
      && r.exported.fHat == OrNominal(r.discipliner.fSlow, nominal)
  }

  lemma SyncShowsLock(r: Runtime, e: T.Export, ppsValid: bool, nowMs: u32, cfg: Config, nominal: u32)
    requires r.gps == StatusOf(r.discipliner.state)
    requires r.exported == T.Sync(e, r.discipliner, ppsValid, nowMs, cfg, nominal)
    ensures ShowsLock(r, nominal)
  {
    hide OrNominal, Sub32;
  }

  /** The pipeline after the first j pulses of the train. */
  predicate Following(r: Runtime, j: nat, start: int, n: u32) {
    && 0 < j && InRange(r) && r.primed && r.candidate == PulseTick(start, j - 1, n)
    && Settled(r.validator, n, j - 1)
  }

  /** The pipeline follows pulse j, and the discipliner hears of it. */
  lemma NextPulse(r: Runtime, x: Happening, start: int, j: nat, n: u32, cfg: Config, nominal: u32)
    requires Following(r, j, start, n) && Plausible(n, nominal) && x == Edge(PulseTick(start, j, n), x.nowMs, cfg)
    ensures var r' := Happen(r, x, nominal);
      && Following(r', j + 1, start, n) && ShowsLock(r', nominal)
      && r'.discipliner == D.Step(r.discipliner, D.Input(V.OK, j >= V.VALID_RUN, n, x.nowMs, false, cfg))
  {
    hide Happen, Settled, Plausible, D.InRange, PulseTick, StatusOf, T.Sync, D.Step, ShowsLock;
    OnePulse(r, x, start, j, n, cfg, nominal);
    SyncShowsLock(Happen(r, x, nominal), r.exported, j >= V.VALID_RUN, x.nowMs, cfg, nominal);
  }

  lemma {:induction false} TrainIsFollowed(r: Runtime, xs: seq<Happening>, start: int, n: u32, cfg: Config,
                                           nominal: u32)
    requires InRange(r) && !r.primed && r.validator == V.RESET && Plausible(n, nominal)
    requires SteadyPulses(xs, start, n, cfg) && |xs| > 0
    ensures Following(HappenAll(r, xs, nominal), |xs|, start, n)
    decreases |xs|
  {
    var last: nat := |xs| - 1;
    if last == 0 {
      FirstPulse(r, xs, start, n, cfg, nominal);
    } else {
      hide Happen, HappenAll, Plausible, D.InRange, Following, SteadyPulses, PulseTick, ShowsLock;
      HappenLast(r, xs, nominal);
      LastOfTrain(xs, start, n, cfg);
      TrainIsFollowed(r, xs[..last], start, n, cfg, nominal);
      NextPulse(HappenAll(r, xs[..last], nominal), xs[last], start, last, n, cfg, nominal);
    }
  }

  lemma FirstPulse(r: Runtime, xs: seq<Happening>, start: int, n: u32, cfg: Config, nominal: u32)
    requires InRange(r) && !r.primed && r.validator == V.RESET
    requires SteadyPulses(xs, start, n, cfg) && |xs| == 1
    ensures Following(HappenAll(r, xs, nominal), 1, start, n)
    ensures HappenAll(r, xs, nominal).discipliner == r.discipliner
  {
    hide PulseTick;
    assert xs[0] == Edge(PulseTick(start, 0, n), xs[0].nowMs, cfg);
    assert xs[1..] == [];
  }

  /** The state after one more valid call. */
  lemma OneMoreCall(d: D.State, h: seq<D.Input>, i: D.Input)
    requires D.InRange(d)
    ensures L.From(d, h + [i]) == D.Step(L.From(d, h), i)
  {
    hide D.Step;
    assert (h + [i])[..|h|] == h;
  }

  /** What the discipliner makes of pulse j: before the train counts as valid it stays where it
      is, afterwards it takes one more valid call. */
  lemma NextCall(d: D.State, now: D.State, now': D.State, xs: seq<Happening>, n: u32, cfg: Config)
    returns (d': D.State)
    requires |xs| > 1 && D.InRange(d) && d.state in {D.FREE_RUN, D.HOLDOVER}
    requires now == L.From(d, ValidCalls(xs[..|xs| - 1], n, cfg))
    requires now' == D.Step(now, D.Input(V.OK, |xs| > V.VALID_RUN, n, xs[|xs| - 1].nowMs, false, cfg))
    ensures D.InRange(d') && d'.state in {D.FREE_RUN, D.HOLDOVER} && now' == L.From(d', ValidCalls(xs, n, cfg))
  {
    var x := xs[|xs| - 1];
    hide D.Step, D.InRange;
    if |xs| > V.VALID_RUN {
      d' := d;
      ValidCallsGrow(xs, n, cfg);
      OneMoreCall(d, ValidCalls(xs[..|xs| - 1], n, cfg), ValidCall(x.nowMs, n, cfg));
    } else {
      d' := now';
      HoldoverCall(d, D.Input(V.OK, false, n, x.nowMs, false, cfg));
    }
  }

  lemma NoCallYet(d: D.State, xs: seq<Happening>, n: u32, cfg: Config)
    requires D.InRange(d) && |xs| <= V.VALID_RUN
    ensures L.From(d, ValidCalls(xs, n, cfg)) == d
  {
  }

  lemma {:induction false} DisciplinerFollows(r: Runtime, xs: seq<Happening>, start: int, n: u32, cfg: Config,
                                              nominal: u32)
    returns (d: D.State)
    requires InRange(r) && !r.primed && r.validator == V.RESET && Plausible(n, nominal)
    requires r.discipliner.state in {D.FREE_RUN, D.HOLDOVER}
    requires SteadyPulses(xs, start, n, cfg) && |xs| > 0
    ensures D.InRange(d) && d.state in {D.FREE_RUN, D.HOLDOVER}
    ensures HappenAll(r, xs, nominal).discipliner == L.From(d, ValidCalls(xs, n, cfg))
    ensures |xs| > 1 ==> ShowsLock(HappenAll(r, xs, nominal), nominal)
    decreases |xs|
  {
    hide Happen, HappenAll, Plausible, D.InRange, Following, SteadyPulses, PulseTick, ShowsLock, ValidCalls, L.From,
         D.Step;
    var last: nat := |xs| - 1;
    if last == 0 {
      NoCallYet(r.discipliner, xs, n, cfg);
      FirstPulse(r, xs, start, n, cfg, nominal);
      d := r.discipliner;
    } else {
      HappenLast(r, xs, nominal);
      LastOfTrain(xs, start, n, cfg);
      d := DisciplinerFollows(r, xs[..last], start, n, cfg, nominal);
      TrainIsFollowed(r, xs[..last], start, n, cfg, nominal);
      var before := HappenAll(r, xs[..last], nominal);
      NextPulse(before, xs[last], start, last, n, cfg, nominal);
      d := NextCall(d, before.discipliner, Happen(before, xs[last], nominal).discipliner, xs, n, cfg);
    }
  }

  lemma PlausibleIsPositive(n: u32, nominal: u32)
    requires Plausible(n, nominal)
    ensures n > 0
  {
  }

  /** Steady pulses lock the whole pipeline: with nothing remembered of earlier pulses, and free
      running or in holdover at any estimates, once lockCount valid pulses have come after the
      quiet one and the acquire time has passed since, the status is LOCKED and the exported
      rate is exactly the interval of the pulses. */
  lemma SteadyPulsesLock(r: Runtime, xs: seq<Happening>, t: seq<nat>, start: int, n: u32, cfg: Config, nominal: u32)
    requires InRange(r) && !r.primed && r.validator == V.RESET && Plausible(n, nominal)
    requires r.discipliner.state in {D.FREE_RUN, D.HOLDOVER}
    requires SteadyPulses(xs, start, n, cfg) && L.LimitsArePositive(cfg)
    requires L.LongEnough(ValidCalls(xs, n, cfg), t, L.QuietFrom(cfg), cfg)
    ensures var r' := HappenAll(r, xs, nominal);
      && r'.gps == LOCKED && r'.discipliner.state == D.DISCIPLINED && r'.discipliner.fHat == n
      && r'.exported.mode == T.SLOW_TRACK && r'.exported.fHat == n
  {
    L.LongerThanQuiet(ValidCalls(xs, n, cfg), t, L.QuietFrom(cfg), cfg);
    hide Plausible, InRange, D.InRange, L.LongEnough, L.QuietFrom, L.LimitsArePositive, L.From, L.Steady, HappenAll,
         SteadyPulses;
    var d := DisciplinerFollows(r, xs, start, n, cfg, nominal);
    L.SteadyTrainLocks(d, ValidCalls(xs, n, cfg), t, n, cfg);
    PlausibleIsPositive(n, nominal);
  }
}
