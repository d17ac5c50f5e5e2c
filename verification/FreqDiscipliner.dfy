/** The frequency discipliner (FreqDiscipliner.cpp): two averages, a residual spread, and
    the FREE_RUN / ACQUIRE / DISCIPLINED / HOLDOVER machine. */
module FreqDiscipliner {
  import opened Words
  import opened EepromRecord
  import opened TunablesRuntime
  import PpsValidator
  import Ewma
  import MedianDeviation
  import RingWindow

  datatype DiscState = FREE_RUN | ACQUIRE | DISCIPLINED | HOLDOVER

  const W_MAD := 31

  /** `residuals` are the latest residuals, oldest first. */
  datatype State = State(
    state: DiscState,
    fFast: u32,
    fSlow: u32,
    fHat: u32,
    fastQ16: nat,
    slowQ16: nat,
    rPpm: u32,
    residuals: seq<int>,
    madTicks: int,
    lockStreak: u8,
    unlockStreak: u8,
    acqStartMs: u32,
    holdoverStartMs: u32,
    holdoverAgeMs: u32,
    lastGoodSlow: u32)

  /** The state reset() establishes. */
  function Initial(nominal: u32): State {
    State(FREE_RUN, nominal, nominal, nominal, nominal * TWO16, nominal * TWO16, 0, [], 0, 0, 0, 0, 0, 0, nominal)
  }

  /** One call of observe. */
  datatype Input = Input(cls: PpsValidator.SampleClass, ppsValid: bool, n: u32, nowMs: u32, anomaly: bool, cfg: Config)

  predicate Evaluated(i: Input) {
    i.ppsValid && i.cls == PpsValidator.OK
  }

  /** Transitions caused by the pulse train becoming valid or invalid. */
  function Gate(d: State, ppsValid: bool, nowMs: u32): (d': State)
    ensures d'.fastQ16 == d.fastQ16 && d'.slowQ16 == d.slowQ16
  {
    var aged := d.(holdoverAgeMs := if d.state.HOLDOVER? then Sub32(nowMs, d.holdoverStartMs) else 0);
    if ppsValid && (d.state.FREE_RUN? || d.state.HOLDOVER?) then
      aged.(state := ACQUIRE, acqStartMs := nowMs, lockStreak := 0, unlockStreak := 0)
    else if !ppsValid && d.state.DISCIPLINED? then
      aged.(state := HOLDOVER, holdoverStartMs := nowMs, lastGoodSlow := d.fSlow, fHat := d.fSlow)
    else if !ppsValid && d.state.ACQUIRE? then
      aged.(state := FREE_RUN, unlockStreak := 0)
    else aged
  }

  function RelativePpm(fast: u32, slow: u32): u32 {
    if slow > 0 then Wrap32(1_000_000 * AbsDiff(fast, slow) / slow) else 0
  }

  /** How much of the fast estimate to blend in, in 65535ths. */
  function BlendWeight(r: u32, cfg: Config): (w: nat)
    ensures w <= 65535
  {
    var lo, hi := cfg.ppsBlendLoPpm, BlendHiPpmActive(cfg);
    if r <= lo then 0
    else if r >= hi then 65535
    else
      PpsValidator.QuotientBetween(0, 65535, (r - lo) * 65535, hi - lo);
      (r - lo) * 65535 / (hi - lo)
  }

  function Blend(slow: u32, fast: u32, w: nat): (f: u32)
    requires w <= 65535
    ensures Min(slow, fast) <= f <= Max(slow, fast)
  {
    BlendBetween(slow, fast, w);
    (slow * (65535 - w) + fast * w) / 65535
  }

  lemma BlendBetween(slow: u32, fast: u32, w: nat)
    requires w <= 65535
    ensures Min(slow, fast) * 65535 <= slow * (65535 - w) + fast * w <= Max(slow, fast) * 65535
  {
    var lo, hi := Min(slow, fast), Max(slow, fast);
    assert lo * (65535 - w) + lo * w == lo * 65535 && hi * (65535 - w) + hi * w == hi * 65535;
    Scaled(lo, slow, hi, 65535 - w);
    Scaled(lo, fast, hi, w);
  }

  lemma Scaled(lo: nat, x: nat, hi: nat, w: nat)
    requires lo <= x <= hi
    ensures lo * w <= x * w <= hi * w
  {
  }

  lemma Mix(slow: int, fast: int, w: int)
    ensures slow * (65535 - w) + fast * w == slow * 65535 + (fast - slow) * w
  {
    assert slow * (65535 - w) == slow * 65535 - slow * w;
    assert (fast - slow) * w == fast * w - slow * w;
  }

  lemma BlendEnds(slow: u32, fast: u32)
    ensures Blend(slow, fast, 0) == slow && Blend(slow, fast, 65535) == fast
  {
    assert slow * 65535 + fast * 0 == slow * 65535 && slow * 0 + fast * 65535 == fast * 65535;
  }

  lemma MixOrder(step: int, w: nat, w': nat)
    requires w <= w'
    ensures if step >= 0 then step * w <= step * w' else step * w' <= step * w
  {
    if step >= 0 {
      Scaled(w, w, w', step);
      assert step * w == w * step && step * w' == w' * step;
    } else {
      Scaled(w, w, w', -step);
      assert step * w == -(w * -step) && step * w' == -(w' * -step);
    }
  }

  /** The blend goes from the slow rate to the fast one as the weight grows, all the way. */
  lemma BlendMoves(slow: u32, fast: u32, w: nat, w': nat)
    requires w <= w' <= 65535
    ensures Blend(slow, fast, 0) == slow && Blend(slow, fast, 65535) == fast
    ensures AbsDiff(fast, Blend(slow, fast, w')) <= AbsDiff(fast, Blend(slow, fast, w))
  {
    BlendEnds(slow, fast);
    BlendBetween(slow, fast, w);
    BlendBetween(slow, fast, w');
    Mix(slow, fast, w);
    Mix(slow, fast, w');
    MixOrder(fast - slow, w, w');
    var a, b := slow * (65535 - w) + fast * w, slow * (65535 - w') + fast * w';
    BlendIs(slow, fast, w, a);
    BlendIs(slow, fast, w', b);
    hide Blend;
    if slow <= fast {
      DivOrder(a, b, 65535);
    } else {
      DivOrder(b, a, 65535);
    }
  }

  lemma BlendIs(slow: u32, fast: u32, w: nat, mixed: int)
    requires w <= 65535 && mixed == slow * (65535 - w) + fast * w
    ensures mixed >= 0 && Blend(slow, fast, w) == mixed / 65535
  {
    assert slow * (65535 - w) >= 0 && fast * w >= 0;
  }

  lemma DivOrder(a: int, b: int, d: nat)
    requires 0 <= a <= b && d == 65535
    ensures a / d <= b / d
  {
  }

  /** More disagreement never means less weight; none up to the lower bound, all of it from
      the upper one on. */
  lemma WeightGrows(r: u32, r': u32, cfg: Config)
    requires r <= r'
    ensures BlendWeight(r, cfg) <= BlendWeight(r', cfg)
    ensures r <= cfg.ppsBlendLoPpm ==> BlendWeight(r, cfg) == 0
    ensures cfg.ppsBlendLoPpm < r && r >= BlendHiPpmActive(cfg) ==> BlendWeight(r, cfg) == 65535
  {
    var lo, hi := cfg.ppsBlendLoPpm, BlendHiPpmActive(cfg);
    if lo < r && r' < hi {
      ShareOrder((r - lo) * 65535, (r' - lo) * 65535, hi - lo);
    }
  }

  lemma QuotientBelow(a: nat, d: nat, p: nat)
    requires d > 0
    ensures a / d < p <==> a < p * d
  {
    var q := a / d;
    assert a == d * q + a % d;
    if q < p {
      Scaled(q + 1, q + 1, p, d);
      assert (q + 1) * d == d * q + d;
    } else {
      Scaled(p, p, q, d);
      assert q * d == d * q;
    }
  }

  lemma ShareOrder(a: nat, b: nat, d: nat)
    requires a <= b && d > 0
    ensures a / d <= b / d
  {
    QuotientBelow(b, d, b / d + 1);
    QuotientBelow(a, d, b / d + 1);
  }

  lemma NoWrap(a: nat, d: nat)
    requires d > 0 && a < TWO32 * d
    ensures Wrap32(a / d) == a / d
  {
    QuotientBelow(a, d, TWO32);
  }

  /** The disagreement is below p parts per million exactly when the two rates are, as long as
      it fits 32 bits. */
  lemma DisagreementIsRelative(fast: u32, slow: u32, p: nat)
    requires slow > 0 && 1_000_000 * AbsDiff(fast, slow) < TWO32 * slow
    ensures RelativePpm(fast, slow) < p <==> 1_000_000 * AbsDiff(fast, slow) < p * slow
  {
    hide AbsDiff, Wrap32;
    NoWrap(1_000_000 * AbsDiff(fast, slow), slow);
    QuotientBelow(1_000_000 * AbsDiff(fast, slow), slow, p);
  }

  /** Estimating leaves the machine's own fields alone. */
  predicate SameMachine(d: State, e: State) {
    && d.state == e.state && d.lockStreak == e.lockStreak && d.unlockStreak == e.unlockStreak
    && d.acqStartMs == e.acqStartMs && d.holdoverStartMs == e.holdoverStartMs && d.lastGoodSlow == e.lastGoodSlow
  }

  /** Both averages, their disagreement, and the blend applied while acquiring. */
  function Average(d: State, n: u32, cfg: Config): (d': State)
    requires InRange(d)
    ensures InRange(d') && SameMachine(d, d')
  {
    Ewma.StepBetween(d.fastQ16, n, FastShiftActive(cfg));
    Ewma.StepBetween(d.slowQ16, n, SlowShiftActive(cfg));
    hide Ewma.Step;
    var fastQ := Ewma.Step(d.fastQ16, n, FastShiftActive(cfg));
    var slowQ := Ewma.Step(d.slowQ16, n, SlowShiftActive(cfg));
    var fast, slow := Ewma.Output(fastQ), Ewma.Output(slowQ);
    var r := RelativePpm(fast, slow);
    d.(fastQ16 := fastQ, slowQ16 := slowQ, fFast := fast, fSlow := slow, rPpm := r,
       fHat := Blend(slow, fast, BlendWeight(r, cfg)))
  }

  /** The residual against the estimate in use, and the spread of the latest residuals. */
  function AddResidual(d: State, n: u32): (d': State)
    ensures SameMachine(d, d') && d'.fSlow == d.fSlow && d'.fHat == d.fHat
  {
    var residual := AsInt32(n - if d.state.DISCIPLINED? || d.state.HOLDOVER? then d.fSlow else d.fHat);
    var residuals := RingWindow.Last(d.residuals + [residual], W_MAD);
    d.(residuals := residuals, madTicks := MedianDeviation.Mad(residuals))
  }

  predicate LockOk(d: State, anomaly: bool, cfg: Config) {
    d.rPpm < cfg.ppsLockRppm && d.madTicks < cfg.ppsLockMadTicks && !anomaly
  }

  predicate UnlockBad(d: State, anomaly: bool, cfg: Config) {
    d.rPpm > cfg.ppsUnlockRppm || d.madTicks > cfg.ppsUnlockMadTicks || anomaly
  }

  function Count(streak: u8): u8 {
    if streak < 255 then streak + 1 else streak
  }

  predicate Locks(d: State, nowMs: u32, cfg: Config) {
    d.state.ACQUIRE? && Sub32(nowMs, d.acqStartMs) >= AcquireMinMsActive(cfg) && d.lockStreak >= LockCountActive(cfg)
  }

  /** The lock streak, and locking on it. */
  function JudgeLock(d: State, nowMs: u32, anomaly: bool, cfg: Config): State {
    var counted := d.(lockStreak := if LockOk(d, anomaly, cfg) then Count(d.lockStreak) else 0);
    if Locks(counted, nowMs, cfg) then counted.(state := DISCIPLINED, fHat := d.fSlow, lastGoodSlow := d.fSlow)
    else counted
  }

  /** While disciplined: the slow estimate is applied, and bad samples in a row unlock. */
  function JudgeUnlock(d: State, nowMs: u32, anomaly: bool, cfg: Config): State {
    if !d.state.DISCIPLINED? then d
    else
      var held := d.(fHat := d.fSlow, lastGoodSlow := d.fSlow,
                     unlockStreak := if UnlockBad(d, anomaly, cfg) then Count(d.unlockStreak) else 0);
      if held.unlockStreak >= UnlockCountActive(cfg) then
        held.(state := ACQUIRE, acqStartMs := nowMs, lockStreak := 0, unlockStreak := 0)
      else held
  }

  /** Everything an evaluated sample does. */
  function Evaluate(d: State, i: Input): (d': State)
    requires InRange(d)
    ensures InRange(d')
  {
    var estimated := AddResidual(Average(d, i.n, i.cfg), i.n);
    hide Average, AddResidual;
    JudgeUnlock(JudgeLock(estimated, i.nowMs, i.anomaly, i.cfg), i.nowMs, i.anomaly, i.cfg)
  }

  /** The end of holdover, and the cleared streaks of free running. */
  function Expire(d: State, nowMs: u32, cfg: Config): (d': State)
    ensures d'.fastQ16 == d.fastQ16 && d'.slowQ16 == d.slowQ16
  {
    var held :=
      if !d.state.HOLDOVER? then d
      else
        var frozen := d.(fHat := d.lastGoodSlow);
        if Sub32(nowMs, d.holdoverStartMs) > HoldoverMsActive(cfg) then frozen.(state := FREE_RUN) else frozen;
    if held.state.FREE_RUN? then held.(lockStreak := 0, unlockStreak := 0) else held
  }

  predicate InRange(d: State) {
    Ewma.InRange(d.fastQ16) && Ewma.InRange(d.slowQ16)
  }

  function Step(d: State, i: Input): (d': State)
    requires InRange(d)
    ensures InRange(d')
  {
    hide Gate, Evaluate, Expire;
    var gated := Gate(d, i.ppsValid, i.nowMs);
    Expire(if Evaluated(i) then Evaluate(gated, i) else gated, i.nowMs, i.cfg)
  }

  class Discipliner {
    const legacyResiduals: array<int>
    var state: DiscState
    var fFast: u32
    var fSlow: u32
    var fHat: u32
    var fastQ16: nat
    var slowQ16: nat
    var rPpm: u32
    var madTicks: int
    var resHead: nat
    var resFill: nat
    var lockStreak: u8
    var unlockStreak: u8
    var acqStartMs: u32
    var holdoverStartMs: u32
    var holdoverAgeMs: u32
    var lastGoodSlow: u32

    ghost predicate RingOk()
      reads this`resHead, this`resFill, legacyResiduals
    {
      legacyResiduals.Length == W_MAD && RingWindow.WellFormed(legacyResiduals[..], resHead, resFill)
    }

    /** The latest residuals, oldest first. */
    ghost function Residuals(): seq<int>
      requires RingOk()
      reads this`resHead, this`resFill, legacyResiduals
    {
      RingWindow.Window(legacyResiduals[..], resHead, resFill)
    }

    ghost predicate Valid()
      reads this, legacyResiduals
    {
      RingOk() && Ewma.InRange(fastQ16) && Ewma.InRange(slowQ16)
    }

    ghost function View(): (d: State)
      requires Valid()
      reads this, legacyResiduals
      ensures InRange(d)
    {
      State(state, fFast, fSlow, fHat, fastQ16, slowQ16, rPpm, Residuals(), madTicks, lockStreak, unlockStreak,
            acqStartMs, holdoverStartMs, holdoverAgeMs, lastGoodSlow)
    }

    constructor (nominal: u32)
      ensures Valid() && View() == Initial(nominal) && fresh(legacyResiduals)
    {
      legacyResiduals := new int[W_MAD](i => 0);
      state, fFast, fSlow, fHat := FREE_RUN, nominal, nominal, nominal;
      fastQ16, slowQ16, rPpm, madTicks := nominal * TWO16, nominal * TWO16, 0, 0;
      resHead, resFill, lockStreak, unlockStreak := 0, 0, 0, 0;
      acqStartMs, holdoverStartMs, holdoverAgeMs, lastGoodSlow := 0, 0, 0, nominal;
    }

    method Reset(nominal: u32)
      requires Valid()
      modifies this
      ensures Valid() && View() == Initial(nominal)
    {
      ResetEstimates(nominal);
      ResetMachine();
    }

    method ResetEstimates(nominal: u32)
      requires Valid()
      modifies this`fFast, this`fSlow, this`fHat, this`fastQ16, this`slowQ16, this`rPpm, this`madTicks,
               this`lastGoodSlow
      ensures fFast == fSlow == fHat == lastGoodSlow == nominal && rPpm == 0 && madTicks == 0
      ensures fastQ16 == slowQ16 == nominal * TWO16 && Valid()
    {
      fFast, fSlow, fHat, lastGoodSlow := nominal, nominal, nominal, nominal;
      fastQ16, slowQ16, rPpm, madTicks := nominal * TWO16, nominal * TWO16, 0, 0;
    }

    method ResetMachine()
      requires Valid()
      modifies this`state, this`resHead, this`resFill, this`lockStreak, this`unlockStreak, this`acqStartMs,
               this`holdoverStartMs, this`holdoverAgeMs
      ensures state == FREE_RUN && resHead == resFill == 0 && lockStreak == unlockStreak == 0
      ensures acqStartMs == holdoverStartMs == holdoverAgeMs == 0 && Valid()
    {
      state, resHead, resFill, lockStreak, unlockStreak := FREE_RUN, 0, 0, 0, 0;
      acqStartMs, holdoverStartMs, holdoverAgeMs := 0, 0, 0;
    }

    /** (Re)start acquiring. */
    method Acquire(nowMs: u32)
      requires Valid()
      modifies this`state, this`acqStartMs, this`lockStreak, this`unlockStreak
      ensures Valid()
      ensures View() == old(View()).(state := ACQUIRE, acqStartMs := nowMs, lockStreak := 0, unlockStreak := 0)
    {
      hide RingOk, Residuals, Ewma.InRange;
      state, acqStartMs, lockStreak, unlockStreak := ACQUIRE, nowMs, 0, 0;
    }

    /** Keep the slow rate while the pulse train is not valid. */
    method EnterHoldover(nowMs: u32)
      requires Valid()
      modifies this`state, this`holdoverStartMs, this`lastGoodSlow, this`fHat
      ensures Valid()
      ensures View() == old(View()).(state := HOLDOVER, holdoverStartMs := nowMs, lastGoodSlow := fSlow, fHat := fSlow)
    {
      hide RingOk, Residuals, Ewma.InRange;
      state, holdoverStartMs, lastGoodSlow := HOLDOVER, nowMs, fSlow;
      fHat := lastGoodSlow;
    }

    /** Apply the slow rate. */
    method ApplySlow()
      requires Valid()
      modifies this`lastGoodSlow, this`fHat
      ensures Valid() && View() == old(View()).(fHat := fSlow, lastGoodSlow := fSlow)
    {
      hide RingOk, Residuals, Ewma.InRange;
      fHat, lastGoodSlow := fSlow, fSlow;
    }

    method AgeHoldover(nowMs: u32)
      requires Valid()
      modifies this`holdoverAgeMs
      ensures Valid()
      ensures View() == old(View()).(holdoverAgeMs := if state.HOLDOVER? then Sub32(nowMs, holdoverStartMs) else 0)
    {
      hide RingOk, Residuals, Ewma.InRange, Sub32;
      if state == HOLDOVER {
        holdoverAgeMs := Sub32(nowMs, holdoverStartMs);
      } else {
        holdoverAgeMs := 0;
      }
    }

    method GateStep(ppsValid: bool, nowMs: u32)
      requires Valid()
      modifies this`state, this`acqStartMs, this`lockStreak, this`unlockStreak, this`holdoverStartMs,
               this`holdoverAgeMs, this`lastGoodSlow, this`fHat
      ensures Valid() && View() == Gate(old(View()), ppsValid, nowMs)
    {
      hide RingOk, Residuals, Ewma.InRange, Sub32;
      AgeHoldover(nowMs);
      if ppsValid && state == FREE_RUN {
        Acquire(nowMs);
      } else if !ppsValid && state == DISCIPLINED {
        EnterHoldover(nowMs);
      } else if !ppsValid && state == ACQUIRE {
        state, unlockStreak := FREE_RUN, 0;
      } else if ppsValid && state == HOLDOVER {
        Acquire(nowMs);
      }
    }

    method UpdateAverages(n: u32, cfg: Config)
      requires Valid()
      modifies this`fastQ16, this`slowQ16, this`fFast, this`fSlow
      ensures Valid()
      ensures var fastQ, slowQ := Ewma.Step(old(fastQ16), n, FastShiftActive(cfg)),
                                  Ewma.Step(old(slowQ16), n, SlowShiftActive(cfg));
        View() == old(View()).(fastQ16 := fastQ, slowQ16 := slowQ,
                               fFast := Ewma.Output(fastQ), fSlow := Ewma.Output(slowQ))
    {
      hide RingOk, Residuals, FastShiftActive, SlowShiftActive, Ewma.Step, Ewma.Output, Ewma.InRange;
      fastQ16, fFast := Ewma.UpdateFrequency(fastQ16, n, FastShiftActive(cfg));
      slowQ16, fSlow := Ewma.UpdateFrequency(slowQ16, n, SlowShiftActive(cfg));
    }

    method AverageStep(n: u32, cfg: Config)
      requires Valid()
      modifies this`fastQ16, this`slowQ16, this`fFast, this`fSlow, this`rPpm, this`fHat
      ensures Valid() && View() == Average(old(View()), n, cfg)
    {
      hide RingOk, Residuals, FastShiftActive, SlowShiftActive, Ewma.Step, Ewma.Output, Ewma.InRange,
           Blend, BlendWeight, RelativePpm;
      UpdateAverages(n, cfg);
      rPpm := RelativePpm(fFast, fSlow);
      fHat := Blend(fSlow, fFast, BlendWeight(rPpm, cfg));
    }

    method ResidualStep(n: u32)
      requires Valid()
      modifies this`resHead, this`resFill, this`madTicks, legacyResiduals
      ensures Valid() && View() == AddResidual(old(View()), n)
    {
      hide RingWindow.Window, RingWindow.Last, MedianDeviation.Mad;
      var residual := AsInt32(n - if state == DISCIPLINED || state == HOLDOVER then fSlow else fHat);
      PushResidual(residual);
      madTicks := MedianDeviation.MadFromResiduals(legacyResiduals, resFill);
      MedianDeviation.MadOfRing(legacyResiduals[..], resHead, resFill);
      assert legacyResiduals[..][..resFill] == legacyResiduals[..resFill];
    }

    method PushResidual(residual: int)
      requires Valid()
      modifies this`resHead, this`resFill, legacyResiduals
      ensures Valid()
      ensures View() == old(View()).(residuals := RingWindow.Last(old(View()).residuals + [residual], W_MAD))
    {
      hide RingWindow.Window, RingWindow.Last;
      RingWindow.PushKeepsLatest(legacyResiduals[..], resHead, resFill, residual);
      ghost var before := legacyResiduals[..];
      legacyResiduals[resHead] := residual;
      assert legacyResiduals[..] == before[resHead := residual];
      resHead := (resHead + 1) % W_MAD;
      if resFill < W_MAD {
        resFill := resFill + 1;
      }
    }

    method CountGood(anomaly: bool, cfg: Config)
      requires Valid()
      modifies this`lockStreak
      ensures Valid()
      ensures View() == old(View()).(
                lockStreak := if LockOk(old(View()), anomaly, cfg) then Count(old(lockStreak)) else 0)
    {
      hide RingOk, Residuals, Ewma.InRange;
      var lockOk := rPpm < cfg.ppsLockRppm && madTicks < cfg.ppsLockMadTicks && !anomaly;
      if lockOk {
        if lockStreak < 255 {
          lockStreak := lockStreak + 1;
        }
      } else {
        lockStreak := 0;
      }
    }

    method LockStep(nowMs: u32, anomaly: bool, cfg: Config)
      requires Valid()
      modifies this`state, this`lockStreak, this`fHat, this`lastGoodSlow
      ensures Valid() && View() == JudgeLock(old(View()), nowMs, anomaly, cfg)
    {
      hide RingOk, Residuals, Ewma.InRange, LockOk, Count, LockCountActive, AcquireMinMsActive, Sub32;
      CountGood(anomaly, cfg);
      if state == ACQUIRE && Sub32(nowMs, acqStartMs) >= AcquireMinMsActive(cfg) && lockStreak >= LockCountActive(cfg) {
        state, fHat, lastGoodSlow := DISCIPLINED, fSlow, fSlow;
      }
    }

    method CountBad(anomaly: bool, cfg: Config)
      requires Valid()
      modifies this`unlockStreak
      ensures Valid()
      ensures View() == old(View()).(
                unlockStreak := if UnlockBad(old(View()), anomaly, cfg) then Count(old(unlockStreak)) else 0)
    {
      hide RingOk, Residuals, Ewma.InRange;
      var unlockBad := rPpm > cfg.ppsUnlockRppm || madTicks > cfg.ppsUnlockMadTicks || anomaly;
      if unlockBad {
        if unlockStreak < 255 {
          unlockStreak := unlockStreak + 1;
        }
      } else {
        unlockStreak := 0;
      }
    }

    method UnlockStep(nowMs: u32, anomaly: bool, cfg: Config)
      requires Valid()
      modifies this`state, this`acqStartMs, this`lockStreak, this`unlockStreak, this`fHat, this`lastGoodSlow
      ensures Valid() && View() == JudgeUnlock(old(View()), nowMs, anomaly, cfg)
    {
      hide RingOk, Residuals, Ewma.InRange, Count, UnlockCountActive;
      if state == DISCIPLINED {
        ApplySlow();
        CountBad(anomaly, cfg);
        if unlockStreak >= UnlockCountActive(cfg) {
          Acquire(nowMs);
        }
      }
    }

    method ExpireStep(nowMs: u32, cfg: Config)
      requires Valid()
      modifies this`state, this`fHat, this`lockStreak, this`unlockStreak
      ensures Valid() && View() == Expire(old(View()), nowMs, cfg)
    {
      hide RingOk, Residuals, Ewma.InRange, HoldoverMsActive, Sub32;
      if state == HOLDOVER {
        fHat := lastGoodSlow;
        if Sub32(nowMs, holdoverStartMs) > HoldoverMsActive(cfg) {
          state := FREE_RUN;
        }
      }
      if state == FREE_RUN {
        lockStreak, unlockStreak := 0, 0;
      }
    }

    method Observe(i: Input)
      requires Valid()
      modifies this, legacyResiduals
      ensures Valid() && View() == Step(old(View()), i)
    {
      hide Gate, Average, AddResidual, JudgeLock, JudgeUnlock, Expire, RingWindow.Window;
      GateStep(i.ppsValid, i.nowMs);
      if i.ppsValid && i.cls == PpsValidator.OK {
        AverageStep(i.n, i.cfg);
        ResidualStep(i.n);
        LockStep(i.nowMs, i.anomaly, i.cfg);
        UnlockStep(i.nowMs, i.anomaly, i.cfg);
      }
      ExpireStep(i.nowMs, i.cfg);
    }
  }
}
