/** A steady pulse train locks the discipliner, from wherever it starts. */
module DisciplinerLiveness {
  import opened Words
  import opened EepromRecord
  import opened TunablesRuntime
  import opened FreqDiscipliner
  import opened DisciplinerHistory
  import Ewma
  import MedianDeviation
  import OrderStatistics
  import PpsValidator
  import RingWindow

  /** The state these calls, in order, lead to from d. */
  function From(d: State, h: seq<Input>): (d': State)
    requires InRange(d)
    ensures InRange(d')
  {
    if |h| == 0 then d else Step(From(d, h[..|h| - 1]), h[|h| - 1])
  }

  /** Accepted samples of one length from a valid pulse train, under one configuration. */
  predicate Steady(h: seq<Input>, n: u32, cfg: Config) {
    forall i :: 0 <= i < |h| ==> h[i] == Input(PpsValidator.OK, true, n, h[i].nowMs, false, cfg)
  }

  // ---- the estimates settle ----

  predicate SameEstimates(d: State, e: State) {
    && d.fastQ16 == e.fastQ16 && d.slowQ16 == e.slowQ16 && d.fFast == e.fFast && d.fSlow == e.fSlow
    && d.rPpm == e.rPpm && d.residuals == e.residuals && d.madTicks == e.madTicks
  }

  lemma MachineKeepsEstimates(d: State, nowMs: u32, ppsValid: bool, anomaly: bool, cfg: Config)
    ensures SameEstimates(d, Gate(d, ppsValid, nowMs))
    ensures SameEstimates(d, JudgeLock(d, nowMs, anomaly, cfg))
    ensures SameEstimates(d, JudgeUnlock(d, nowMs, anomaly, cfg))
    ensures SameEstimates(d, Expire(d, nowMs, cfg))
  {
    hide LockOk, UnlockBad, Locks, Sub32;
  }

  /** The estimates of a call with these averages. */
  predicate Estimated(d: State, e: State, n: u32, cfg: Config) {
    && e.fastQ16 == Ewma.Step(d.fastQ16, n, FastShiftActive(cfg))
    && e.slowQ16 == Ewma.Step(d.slowQ16, n, SlowShiftActive(cfg))
    && e.fFast == Ewma.Output(e.fastQ16) && e.fSlow == Ewma.Output(e.slowQ16)
    && e.rPpm == RelativePpm(e.fFast, e.fSlow)
  }

  lemma AverageEstimates(d: State, n: u32, cfg: Config)
    requires InRange(d)
    ensures var e := Average(d, n, cfg);
      && Estimated(d, e, n, cfg) && e.residuals == d.residuals && e.state == d.state
      && e.fHat == Blend(e.fSlow, e.fFast, BlendWeight(e.rPpm, cfg))
  {
    hide Ewma.Step, Ewma.Output, RelativePpm, Blend, BlendWeight, FastShiftActive, SlowShiftActive;
    Ewma.StepBetween(d.fastQ16, n, FastShiftActive(cfg));
    Ewma.StepBetween(d.slowQ16, n, SlowShiftActive(cfg));
  }

  /** The estimates of a call, and its residual against an estimate between the two averages. */
  predicate Sampled(d: State, e: State, estimate: u32, n: u32, cfg: Config) {
    && Estimated(d, e, n, cfg) && Min(e.fSlow, e.fFast) <= estimate <= Max(e.fSlow, e.fFast)
    && e.residuals == RingWindow.Last(d.residuals + [AsInt32(n - estimate)], W_MAD)
    && e.madTicks == MedianDeviation.Mad(e.residuals)
  }

  lemma ResidualOf(e: State, n: u32) returns (estimate: u32)
    ensures estimate in {e.fSlow, e.fHat}
    ensures var e' := AddResidual(e, n);
      && e'.fastQ16 == e.fastQ16 && e'.slowQ16 == e.slowQ16 && e'.fFast == e.fFast && e'.fSlow == e.fSlow
      && e'.rPpm == e.rPpm && e'.residuals == RingWindow.Last(e.residuals + [AsInt32(n - estimate)], W_MAD)
      && e'.madTicks == MedianDeviation.Mad(e'.residuals)
  {
    hide RingWindow.Last, MedianDeviation.Mad, AsInt32;
    estimate := if e.state.DISCIPLINED? || e.state.HOLDOVER? then e.fSlow else e.fHat;
  }

  lemma ResidualSampled(d: State, n: u32, cfg: Config) returns (estimate: u32)
    requires InRange(d)
    ensures Sampled(d, AddResidual(Average(d, n, cfg), n), estimate, n, cfg)
  {
    AverageEstimates(d, n, cfg);
    hide Average, AddResidual, RingWindow.Last, MedianDeviation.Mad, AsInt32, Blend, BlendWeight, Ewma.Step,
         Ewma.Output, RelativePpm, FastShiftActive, SlowShiftActive;
    estimate := ResidualOf(Average(d, n, cfg), n);
  }

  lemma SampledBySame(d: State, d': State, e: State, e': State, estimate: u32, n: u32, cfg: Config)
    requires Sampled(d, e, estimate, n, cfg) && SameEstimates(d, d') && SameEstimates(e, e')
    ensures Sampled(d', e', estimate, n, cfg)
  {
    hide RingWindow.Last, MedianDeviation.Mad, AsInt32, Ewma.Step, Ewma.Output, RelativePpm, FastShiftActive,
         SlowShiftActive;
  }

  /** What an evaluated call makes of the estimates. */
  lemma EvaluatedEstimates(d: State, i: Input) returns (estimate: u32)
    requires InRange(d) && Evaluated(i)
    ensures Sampled(d, Step(d, i), estimate, i.n, i.cfg)
  {
    var g := Gate(d, i.ppsValid, i.nowMs);
    var e := AddResidual(Average(g, i.n, i.cfg), i.n);
    var l := JudgeLock(e, i.nowMs, i.anomaly, i.cfg);
    var u := JudgeUnlock(l, i.nowMs, i.anomaly, i.cfg);
    assert Step(d, i) == Expire(u, i.nowMs, i.cfg) by {
      hide Gate, Average, AddResidual, JudgeLock, JudgeUnlock, Expire;
    }
    hide Gate, Average, AddResidual, JudgeLock, JudgeUnlock, Expire, Sampled, Step;
    MachineKeepsEstimates(d, i.nowMs, i.ppsValid, i.anomaly, i.cfg);
    estimate := ResidualSampled(g, i.n, i.cfg);
    MachineKeepsEstimates(e, i.nowMs, i.ppsValid, i.anomaly, i.cfg);
    MachineKeepsEstimates(l, i.nowMs, i.ppsValid, i.anomaly, i.cfg);
    MachineKeepsEstimates(u, i.nowMs, i.ppsValid, i.anomaly, i.cfg);
    SampledBySame(g, d, e, Step(d, i), estimate, i.n, i.cfg);
  }

  /** An evaluated sample passes when its averages differ by less than the lock limit, relative
      to the slow one, its spread is below the lock limit in ticks, and nothing was wrong with
      it; it fails when one of these is beyond the unlock limit. */
  lemma PassesMeans(h: seq<Input>, i: nat, nominal: u32)
    requires i < |h|
    ensures var e := EstimatesAt(h, i, nominal);
      var apart, slow := 1_000_000 * AbsDiff(e.fFast, e.fSlow), e.fSlow;
      slow > 0 && apart < TWO32 * slow ==>
        && (Passes(h, i, nominal) <==>
              && apart < h[i].cfg.ppsLockRppm * slow && MedianDeviation.Mad(e.residuals) < h[i].cfg.ppsLockMadTicks
              && !h[i].anomaly)
        && (Fails(h, i, nominal) <==>
              || apart >= (h[i].cfg.ppsUnlockRppm + 1) * slow
              || MedianDeviation.Mad(e.residuals) > h[i].cfg.ppsUnlockMadTicks || h[i].anomaly)
  {
    var e := EstimatesAt(h, i, nominal);
    EstimatesAre(h, i, nominal);
    hide EstimatesAt, RelativePpm, MedianDeviation.Mad, AbsDiff;
    var apart, slow := 1_000_000 * AbsDiff(e.fFast, e.fSlow), e.fSlow;
    if slow > 0 && apart < TWO32 * slow {
      DisagreementIsRelative(e.fFast, slow, h[i].cfg.ppsLockRppm);
      DisagreementIsRelative(e.fFast, slow, h[i].cfg.ppsUnlockRppm + 1);
    }
  }

  lemma EstimatesAre(h: seq<Input>, i: nat, nominal: u32)
    requires i < |h|
    ensures var e := EstimatesAt(h, i, nominal);
      e.rPpm == RelativePpm(e.fFast, e.fSlow) && e.madTicks == MedianDeviation.Mad(e.residuals)
  {
    var g := Gate(After(h[..i], nominal), h[i].ppsValid, h[i].nowMs);
    hide After, Gate, Average, AddResidual, RelativePpm, MedianDeviation.Mad, Estimated;
    var estimate := ResidualSampled(g, h[i].n, h[i].cfg);
    SampledParts(g, EstimatesAt(h, i, nominal), estimate, h[i].n, h[i].cfg);
  }

  lemma SampledParts(d: State, e: State, estimate: u32, n: u32, cfg: Config)
    requires Sampled(d, e, estimate, n, cfg)
    ensures e.rPpm == RelativePpm(e.fFast, e.fSlow) && e.madTicks == MedianDeviation.Mad(e.residuals)
  {
    hide RelativePpm, MedianDeviation.Mad, RingWindow.Last;
  }

  /** The residual of a sample is its error against the rate applied after it, blended or slow,
      unless that sample locks. */
  lemma ResidualIsOfTheAppliedRate(d: State, i: Input)
    requires InRange(d) && Evaluated(i) && ValidateConfig(i.cfg)
    ensures var d' := Step(d, i);
      && |d'.residuals| > 0
      && (d.state == DISCIPLINED || d'.state != DISCIPLINED ==>
            d'.residuals[|d'.residuals| - 1] == AsInt32(i.n - d'.fHat))
  {
    var g := Gate(d, i.ppsValid, i.nowMs);
    var a := Average(g, i.n, i.cfg);
    var e := AddResidual(a, i.n);
    var l := JudgeLock(e, i.nowMs, i.anomaly, i.cfg);
    var u := JudgeUnlock(l, i.nowMs, i.anomaly, i.cfg);
    assert Step(d, i) == Expire(u, i.nowMs, i.cfg) by {
      hide Gate, Average, AddResidual, JudgeLock, JudgeUnlock, Expire;
    }
    assert g.state in {ACQUIRE, DISCIPLINED} && (g.state == DISCIPLINED <==> d.state == DISCIPLINED);
    AverageEstimates(g, i.n, i.cfg);
    ResidualApplied(a, i.n);
    hide Gate, Average, AddResidual, Step, AsInt32, RingWindow.Last, MedianDeviation.Mad;
    MachineApplies(e, i, l, u);
  }

  lemma ResidualApplied(a: State, n: u32)
    ensures var e := AddResidual(a, n);
      && e.state == a.state && e.fHat == a.fHat && e.fSlow == a.fSlow && |e.residuals| > 0
      && e.residuals[|e.residuals| - 1] ==
         AsInt32(n - if a.state == DISCIPLINED || a.state == HOLDOVER then a.fSlow else a.fHat)
  {
    hide MedianDeviation.Mad, AsInt32;
  }

  /** Where the machine leaves the applied rate, unless it locks. */
  lemma MachineApplies(e: State, i: Input, l: State, u: State)
    requires e.state in {ACQUIRE, DISCIPLINED} && ValidateConfig(i.cfg)
    requires l == JudgeLock(e, i.nowMs, i.anomaly, i.cfg) && u == JudgeUnlock(l, i.nowMs, i.anomaly, i.cfg)
    ensures var d' := Expire(u, i.nowMs, i.cfg);
      && d'.residuals == e.residuals
      && (e.state == DISCIPLINED ==> d'.fHat == e.fSlow)
      && (e.state == ACQUIRE && d'.state != DISCIPLINED ==> d'.fHat == e.fHat)
  {
    hide Sub32, ValidateConfig;
    LockIsNoFailure(e, i.anomaly, i.cfg);
    LockCountIsSmall(i.cfg);
  }

  lemma LockIsNoFailure(e: State, anomaly: bool, cfg: Config)
    requires ValidateConfig(cfg)
    ensures LockOk(e, anomaly, cfg) ==> !UnlockBad(e, anomaly, cfg)
  {
  }

  /** From here on both averages are exact. */
  function SettledFrom(cfg: Config): nat {
    Max(Ewma.SettlingTime(FastShiftActive(cfg)), Ewma.SettlingTime(SlowShiftActive(cfg)))
  }

  /** ... and from here on all remembered residuals are zero. */
  function QuietFrom(cfg: Config): (q: nat)
    ensures q >= W_MAD
  {
    SettledFrom(cfg) + W_MAD
  }

  lemma LastSampled(d: State, h: seq<Input>, n: u32, cfg: Config) returns (estimate: u32)
    requires InRange(d) && Steady(h, n, cfg) && |h| > 0
    ensures Sampled(From(d, h[..|h| - 1]), From(d, h), estimate, n, cfg)
  {
    hide Step, Sampled;
    estimate := EvaluatedEstimates(From(d, h[..|h| - 1]), h[|h| - 1]);
  }

  lemma {:induction false} AveragesIterate(d: State, h: seq<Input>, n: u32, cfg: Config)
    requires InRange(d) && Steady(h, n, cfg)
    ensures From(d, h).fastQ16 == Ewma.Iterate(d.fastQ16, n, FastShiftActive(cfg), |h|)
    ensures From(d, h).slowQ16 == Ewma.Iterate(d.slowQ16, n, SlowShiftActive(cfg), |h|)
  {
    hide Step, Ewma.Step, Ewma.Output, RelativePpm, FastShiftActive, SlowShiftActive, RingWindow.Last,
         MedianDeviation.Mad, AsInt32;
    if |h| > 0 {
      AveragesIterate(d, h[..|h| - 1], n, cfg);
      var estimate := LastSampled(d, h, n, cfg);
    }
  }

  lemma AveragesSettle(d: State, h: seq<Input>, n: u32, cfg: Config)
    requires InRange(d) && Steady(h, n, cfg) && |h| >= SettledFrom(cfg)
    ensures Ewma.Output(From(d, h).fastQ16) == n && Ewma.Output(From(d, h).slowQ16) == n
  {
    AveragesIterate(d, h, n, cfg);
    ShiftsInRange(cfg);
    hide From, Steady, Ewma.Iterate, Ewma.SettlingTime, Ewma.Output, FastShiftActive, SlowShiftActive;
    Ewma.SettlesInTime(d.fastQ16, n, FastShiftActive(cfg), |h|);
    Ewma.SettlesInTime(d.slowQ16, n, SlowShiftActive(cfg), |h|);
  }

  lemma SettledSample(d: State, e: State, estimate: u32, n: u32, cfg: Config)
    requires Sampled(d, e, estimate, n, cfg) && Ewma.Output(e.fastQ16) == n && Ewma.Output(e.slowQ16) == n
    ensures e.fFast == e.fSlow == n && e.rPpm == 0
    ensures e.residuals == RingWindow.Last(d.residuals + [0], W_MAD) && e.madTicks == MedianDeviation.Mad(e.residuals)
  {
    NoDisagreement(n);
    hide RingWindow.Last, MedianDeviation.Mad, Ewma.Step, Ewma.Output, FastShiftActive, SlowShiftActive, AsInt32,
         RelativePpm;
  }

  /** Whatever the averages were, both are exact after the settling time, and the new residual
      is zero. */
  lemma SteadyIsExact(d: State, h: seq<Input>, n: u32, cfg: Config)
    requires InRange(d) && Steady(h, n, cfg) && |h| > 0 && |h| >= SettledFrom(cfg)
    ensures From(d, h).fFast == From(d, h).fSlow == n && From(d, h).rPpm == 0
    ensures From(d, h).residuals == RingWindow.Last(From(d, h[..|h| - 1]).residuals + [0], W_MAD)
    ensures From(d, h).madTicks == MedianDeviation.Mad(From(d, h).residuals)
  {
    hide From, Steady, Sampled, SettledFrom, RingWindow.Last, MedianDeviation.Mad, Ewma.Output;
    var estimate := LastSampled(d, h, n, cfg);
    AveragesSettle(d, h, n, cfg);
    SettledSample(From(d, h[..|h| - 1]), From(d, h), estimate, n, cfg);
  }

  lemma ShiftsInRange(cfg: Config)
    ensures FastShiftActive(cfg) <= 15 && SlowShiftActive(cfg) <= 15
  {
  }

  lemma NoDisagreement(n: u32)
    ensures RelativePpm(n, n) == 0 && AsInt32(n - n) == 0
  {
  }

  predicate ZeroTail(s: seq<int>, z: nat) {
    forall i :: 0 <= i < |s| && |s| - z <= i ==> s[i] == 0
  }

  lemma {:induction false} ResidualsQuieten(d: State, h: seq<Input>, n: u32, cfg: Config)
    requires InRange(d) && Steady(h, n, cfg) && |h| >= SettledFrom(cfg)
    ensures ZeroTail(From(d, h).residuals, |h| - SettledFrom(cfg))
  {
    hide From, SettledFrom;
    if |h| > SettledFrom(cfg) {
      ResidualsQuieten(d, h[..|h| - 1], n, cfg);
      SteadyIsExact(d, h, n, cfg);
      TailGrows(From(d, h[..|h| - 1]).residuals, |h| - 1 - SettledFrom(cfg));
    }
  }

  lemma TailGrows(s: seq<int>, z: nat)
    requires ZeroTail(s, z)
    ensures ZeroTail(RingWindow.Last(s + [0], W_MAD), z + 1)
  {
  }

  lemma ZeroSpread(s: seq<int>)
    requires ZeroTail(s, |s|)
    ensures MedianDeviation.Mad(s) == 0
  {
    if |s| > 0 {
      var m := MedianDeviation.Magnitudes(s);
      OrderStatistics.SortBounded(m, 0, 0);
      OrderStatistics.SortBounded(MedianDeviation.Distances(m, 0), 0, 0);
      hide OrderStatistics.Sort;
    }
  }

  /** Once quiet, the estimates agree exactly and have no spread: every call passes, and none
      fails, whatever positive limits are set. */
  lemma SteadyIsQuiet(d: State, h: seq<Input>, n: u32, cfg: Config)
    requires InRange(d) && Steady(h, n, cfg) && |h| >= QuietFrom(cfg)
    ensures var e := From(d, h); e.fFast == e.fSlow == n && e.rPpm == 0 && e.madTicks == 0
  {
    SteadyIsExact(d, h, n, cfg);
    ResidualsQuieten(d, h, n, cfg);
    hide From, MedianDeviation.Mad;
    assert |From(d, h).residuals| <= W_MAD;
    ZeroSpread(From(d, h).residuals);
  }

  // ---- the machine follows ----

  /** An evaluated call is judged by the estimates it leaves. */
  lemma StepVerdict(d: State, i: Input)
    requires InRange(d) && Evaluated(i) && ValidateConfig(i.cfg)
    ensures var d' := Step(d, i);
      var passes, fails := LockOk(d', i.anomaly, i.cfg), UnlockBad(d', i.anomaly, i.cfg);
      && (d.state == ACQUIRE ==> AcquireAnswer(d, i, passes, d'))
      && (d.state == DISCIPLINED ==> DisciplinedAnswer(d, i, passes, fails, d'))
      && (d.state in {FREE_RUN, HOLDOVER} ==> IdleAnswer(d, i, passes, d'))
      && (d'.state == DISCIPLINED ==> d'.fHat == d'.fSlow)
  {
    var g := Gate(d, i.ppsValid, i.nowMs);
    var e := AddResidual(Average(g, i.n, i.cfg), i.n);
    var l := JudgeLock(e, i.nowMs, i.anomaly, i.cfg);
    var u := JudgeUnlock(l, i.nowMs, i.anomaly, i.cfg);
    StepAnswers(d, i);
    assert Step(d, i) == Expire(u, i.nowMs, i.cfg) by {
      hide Gate, Average, AddResidual, JudgeLock, JudgeUnlock, Expire;
    }
    DisciplinedApplies(l, i.nowMs, i.anomaly, i.cfg);
    hide Gate, Average, AddResidual, JudgeLock, JudgeUnlock, Expire, Step, AcquireAnswer, DisciplinedAnswer, IdleAnswer,
         ValidateConfig;
    MachineKeepsEstimates(e, i.nowMs, i.ppsValid, i.anomaly, i.cfg);
    MachineKeepsEstimates(l, i.nowMs, i.ppsValid, i.anomaly, i.cfg);
    MachineKeepsEstimates(u, i.nowMs, i.ppsValid, i.anomaly, i.cfg);
  }

  lemma DisciplinedApplies(d: State, nowMs: u32, anomaly: bool, cfg: Config)
    ensures var d' := Expire(JudgeUnlock(d, nowMs, anomaly, cfg), nowMs, cfg);
      d'.state == DISCIPLINED ==> d'.fHat == d'.fSlow
  {
    hide UnlockBad, Sub32;
  }

  lemma LockCountIsSmall(cfg: Config)
    ensures 1 <= LockCountActive(cfg) <= 60 && 1 <= UnlockCountActive(cfg) <= 255
  {
  }

  /** After j calls: acquiring since one of the first q calls, with every call after those
      counted, or locked. */
  predicate OnTheWay(s: State, h: seq<Input>, j: nat, q: nat) {
    && 0 < j <= |h| && s.state in {ACQUIRE, DISCIPLINED}
    && (s.state == ACQUIRE ==>
          (exists c :: 0 <= c < j && c < q && s.acqStartMs == h[c].nowMs) && s.lockStreak >= Min(j - q, 255))
  }

  lemma OnItsWay(d: State, h: seq<Input>, q: nat, cfg: Config, d': State, j: nat)
    requires 0 < q && j < |h| && h[j].cfg == cfg && Evaluated(h[j]) && ValidateConfig(cfg)
    requires if j == 0 then d.state in {FREE_RUN, HOLDOVER} else OnTheWay(d, h, j, q)
    requires var passes, fails := LockOk(d', h[j].anomaly, cfg), UnlockBad(d', h[j].anomaly, cfg);
      && (d.state == ACQUIRE ==> AcquireAnswer(d, h[j], passes, d'))
      && (d.state == DISCIPLINED ==> DisciplinedAnswer(d, h[j], passes, fails, d'))
      && (d.state in {FREE_RUN, HOLDOVER} ==> IdleAnswer(d, h[j], passes, d'))
      && (j >= q ==> passes && !fails)
    ensures OnTheWay(d', h, j + 1, q)
    ensures j >= q && d.state == DISCIPLINED ==> d'.state == DISCIPLINED
  {
    hide LockOk, UnlockBad, Sub32, ValidateConfig;
    LockCountIsSmall(cfg);
    hide LockCountActive, UnlockCountActive, AcquireMinMsActive;
    if j > 0 && d.state == ACQUIRE {
      var c :| 0 <= c < j && c < q && d.acqStartMs == h[c].nowMs;
      assert d'.state == ACQUIRE ==> d'.acqStartMs == h[c].nowMs;
    } else if j == 0 || (d.state == DISCIPLINED && j < q) {
      assert d'.state == ACQUIRE ==> d'.acqStartMs == h[j].nowMs;
    }
  }

  predicate LimitsArePositive(cfg: Config) {
    ValidateConfig(cfg) && cfg.ppsLockRppm > 0 && cfg.ppsLockMadTicks > 0
  }

  lemma {:induction false} SteadyStaysOnTheWay(d: State, h: seq<Input>, n: u32, cfg: Config, j: nat)
    requires InRange(d) && d.state in {FREE_RUN, HOLDOVER} && Steady(h, n, cfg) && LimitsArePositive(cfg)
    requires 0 < j <= |h|
    ensures OnTheWay(From(d, h[..j]), h, j, QuietFrom(cfg))
    ensures j > QuietFrom(cfg) && From(d, h[..j - 1]).state == DISCIPLINED ==> From(d, h[..j]).state == DISCIPLINED
    ensures LastCall(d, h, j, cfg)
  {
    hide OnTheWay, Step, AcquireAnswer, DisciplinedAnswer, IdleAnswer;
    var prefix := h[..j];
    assert prefix[..j - 1] == h[..j - 1] && prefix[j - 1] == h[j - 1];
    if j > 1 {
      SteadyStaysOnTheWay(d, h, n, cfg, j - 1);
    }
    StepVerdict(From(d, h[..j - 1]), h[j - 1]);
    if j > QuietFrom(cfg) {
      SteadyIsQuiet(d, prefix, n, cfg);
    }
    OnItsWay(From(d, h[..j - 1]), h, QuietFrom(cfg), cfg, From(d, prefix), j - 1);
  }

  /** How call j was answered, for the last step. */
  predicate LastCall(d: State, h: seq<Input>, j: nat, cfg: Config)
    requires InRange(d) && 0 < j <= |h|
  {
    var s, s' := From(d, h[..j - 1]), From(d, h[..j]);
    && (s.state == ACQUIRE ==> AcquireAnswer(s, h[j - 1], LockOk(s', h[j - 1].anomaly, cfg), s'))
    && (s'.state == DISCIPLINED ==> s'.fHat == s'.fSlow)
  }

  /** Calls at these true times, all within one turn of the millisecond clock. */
  predicate Timed(h: seq<Input>, t: seq<nat>) {
    Clocked(h, t) && (|t| > 0 ==> t[|t| - 1] - t[0] < TWO32)
  }

  /** lockCount more calls than the first q, and the acquire time later than them. */
  predicate LongEnough(h: seq<Input>, t: seq<nat>, q: nat, cfg: Config) {
    && Timed(h, t) && 0 < q && |h| > q + LockCountActive(cfg)
    && t[|h| - 1] - t[q - 1] >= AcquireMinMsActive(cfg)
  }

  lemma LongerThanQuiet(h: seq<Input>, t: seq<nat>, q: nat, cfg: Config)
    requires LongEnough(h, t, q, cfg)
    ensures |h| > q + 1
  {
    LockCountIsSmall(cfg);
  }

  /** From free running or holdover, with estimates however wrong, a steady valid pulse train
      locks: by the time its residuals have gone quiet, lockCount more samples have come and
      the acquire time has passed since, and the rate applied is then exactly its rate. */
  lemma SteadyTrainLocks(d: State, h: seq<Input>, t: seq<nat>, n: u32, cfg: Config)
    requires InRange(d) && d.state in {FREE_RUN, HOLDOVER} && Steady(h, n, cfg) && LimitsArePositive(cfg)
    requires LongEnough(h, t, QuietFrom(cfg), cfg)
    ensures From(d, h).state == DISCIPLINED && From(d, h).fHat == From(d, h).fSlow == n
  {
    LongerThanQuiet(h, t, QuietFrom(cfg), cfg);
    hide LongEnough, OnTheWay, From, LimitsArePositive, AcquireAnswer, QuietFrom, Timed, Steady, Evaluated,
         LockCountActive, AcquireMinMsActive, LockOk, InRange;
    SteadyCall(h, n, cfg, |h| - 1);
    var s, s' := LastTwo(d, h, n, cfg);
    QuietLocks(s, s', h, t, cfg, QuietFrom(cfg));
  }

  lemma SteadyCall(h: seq<Input>, n: u32, cfg: Config, i: nat)
    requires Steady(h, n, cfg) && i < |h|
    ensures Evaluated(h[i]) && h[i].cfg == cfg && !h[i].anomaly
  {
  }

  /** The last two states of a train long enough to be quiet. */
  lemma LastTwo(d: State, h: seq<Input>, n: u32, cfg: Config) returns (s: State, s': State)
    requires InRange(d) && d.state in {FREE_RUN, HOLDOVER} && Steady(h, n, cfg) && LimitsArePositive(cfg)
    requires |h| > QuietFrom(cfg) + 1
    ensures s' == From(d, h) && s'.fSlow == n && s'.rPpm == 0 && s'.madTicks == 0
    ensures OnTheWay(s, h, |h| - 1, QuietFrom(cfg))
    ensures s.state == ACQUIRE ==> AcquireAnswer(s, h[|h| - 1], LockOk(s', false, cfg), s')
    ensures s.state == DISCIPLINED ==> s'.state == DISCIPLINED
    ensures s'.state == DISCIPLINED ==> s'.fHat == s'.fSlow
  {
    hide OnTheWay, From, LimitsArePositive, AcquireAnswer, QuietFrom, Steady, Evaluated, LockOk, InRange;
    s, s' := From(d, h[..|h| - 1]), From(d, h);
    assert h[..|h|] == h;
    SteadyCall(h, n, cfg, |h| - 1);
    SteadyStaysOnTheWay(d, h, n, cfg, |h|);
    SteadyStaysOnTheWay(d, h, n, cfg, |h| - 1);
    SteadyIsQuiet(d, h, n, cfg);
  }

  lemma QuietLocks(s: State, s': State, h: seq<Input>, t: seq<nat>, cfg: Config, q: nat)
    requires LimitsArePositive(cfg) && LongEnough(h, t, q, cfg)
    requires h[|h| - 1].cfg == cfg && Evaluated(h[|h| - 1]) && !h[|h| - 1].anomaly
    requires OnTheWay(s, h, |h| - 1, q) && s'.rPpm == 0 && s'.madTicks == 0
    requires s.state == ACQUIRE ==> AcquireAnswer(s, h[|h| - 1], LockOk(s', false, cfg), s')
    requires s.state == DISCIPLINED ==> s'.state == DISCIPLINED
    ensures s'.state == DISCIPLINED
  {
    LockCountIsSmall(cfg);
    var j: nat := |h| - 1;
    assert LockOk(s', false, cfg);
    hide ValidateConfig, LockCountActive, AcquireMinMsActive, Sub32, AcquireAnswer, Evaluated, LockOk, Timed;
    if s.state == ACQUIRE {
      var c :| 0 <= c < j && c < q && s.acqStartMs == h[c].nowMs;
      StartedBefore(h, t, c, q);
      StreakLocks(s, h[j], s', LockCountActive(cfg));
    }
  }

  lemma StartedBefore(h: seq<Input>, t: seq<nat>, c: nat, q: nat)
    requires Timed(h, t) && c < q < |h|
    ensures Sub32(h[|h| - 1].nowMs, h[c].nowMs) >= t[|h| - 1] - t[q - 1]
  {
    hide Wrap32, Sub32;
    assert t[0] <= t[c] <= t[q - 1] <= t[|h| - 1] by {
      assert c > 0 ==> t[0] <= t[c];
    }
    ElapsedExactly(t[c], t[|h| - 1]);
  }

  lemma ElapsedExactly(start: nat, now: nat)
    requires start <= now < start + TWO32
    ensures Sub32(Wrap32(now), Wrap32(start)) == now - start
  {
  }
}
