/** Safety of the lock machine over whole runs: what must have happened before every lock
    and every unlock. Tunables may change between samples, as the `set` command allows,
    but each is a validated configuration. */
module DisciplinerHistory {
  import opened Words
  import opened EepromRecord
  import opened TunablesRuntime
  import opened FreqDiscipliner

  /** The state after a reset and then these calls, in order. */
  function After(h: seq<Input>, nominal: u32): (d: State)
    ensures InRange(d)
  {
    if |h| == 0 then Initial(nominal) else Step(After(h[..|h| - 1], nominal), h[|h| - 1])
  }

  predicate Validated(h: seq<Input>) {
    forall i :: 0 <= i < |h| ==> ValidateConfig(h[i].cfg)
  }

  /** The estimates call i judges by, if it is evaluated. */
  function EstimatesAt(h: seq<Input>, i: nat, nominal: u32): State
    requires i < |h|
  {
    var gated := Gate(After(h[..i], nominal), h[i].ppsValid, h[i].nowMs);
    AddResidual(Average(gated, h[i].n, h[i].cfg), h[i].n)
  }

  predicate Passes(h: seq<Input>, i: nat, nominal: u32)
    requires i < |h|
  {
    LockOk(EstimatesAt(h, i, nominal), h[i].anomaly, h[i].cfg)
  }

  predicate Fails(h: seq<Input>, i: nat, nominal: u32)
    requires i < |h|
  {
    UnlockBad(EstimatesAt(h, i, nominal), h[i].anomaly, h[i].cfg)
  }

  function StateAt(h: seq<Input>, i: nat, nominal: u32): DiscState
    requires i <= |h|
  {
    After(h[..i], nominal).state
  }

  /** Evaluated calls among h[m..]. */
  function EvaluatedFrom(h: seq<Input>, m: nat): nat
    requires m <= |h|
  {
    if m == |h| then 0
    else EvaluatedFrom(h[..|h| - 1], m) + (if Evaluated(h[|h| - 1]) then 1 else 0)
  }

  /** The last `count` or more evaluated calls, from m on, all passed. */
  predicate PassingRun(h: seq<Input>, m: nat, count: nat, nominal: u32)
    requires m <= |h|
  {
    EvaluatedFrom(h, m) >= count && forall i :: m <= i < |h| && Evaluated(h[i]) ==> Passes(h, i, nominal)
  }

  predicate FailingRun(h: seq<Input>, m: nat, count: nat, nominal: u32)
    requires m <= |h|
  {
    EvaluatedFrom(h, m) >= count && forall i :: m <= i < |h| && Evaluated(h[i]) ==> Fails(h, i, nominal)
  }

  /** The machine entered `s` in call j and has stayed there. */
  predicate InSince(h: seq<Input>, j: nat, s: DiscState, nominal: u32)
  {
    && j < |h| && StateAt(h, j, nominal) != s
    && forall i :: j < i <= |h| ==> StateAt(h, i, nominal) == s
  }

  predicate AcquireRecord(h: seq<Input>, j: nat, m: nat, d: State, nominal: u32) {
    && InSince(h, j, ACQUIRE, nominal) && d.acqStartMs == h[j].nowMs
    && j <= m <= |h| && PassingRun(h, m, d.lockStreak, nominal)
  }

  predicate LockRecord(h: seq<Input>, k: nat, m: nat, d: State, nominal: u32) {
    && InSince(h, k, DISCIPLINED, nominal)
    && k < m <= |h| && FailingRun(h, m, d.unlockStreak, nominal)
  }

  // ---- one call, seen from outside ----

  lemma AcquireStep(d: State, i: Input)
    requires InRange(d) && d.state == ACQUIRE && d.unlockStreak == 0 && ValidateConfig(i.cfg)
    ensures var e := AddResidual(Average(Gate(d, i.ppsValid, i.nowMs), i.n, i.cfg), i.n);
      var d' := Step(d, i);
      && d'.unlockStreak == 0 && d'.state != HOLDOVER
      && (d'.state == ACQUIRE ==> d'.acqStartMs == d.acqStartMs)
      && (d'.state == ACQUIRE && !Evaluated(i) ==> d'.lockStreak == d.lockStreak)
      && (d'.state == ACQUIRE && Evaluated(i) ==>
            d'.lockStreak == 0 || (d'.lockStreak <= d.lockStreak + 1 && LockOk(e, i.anomaly, i.cfg)))
      && (d'.state == DISCIPLINED ==>
            && Evaluated(i) && LockOk(e, i.anomaly, i.cfg) && d.lockStreak + 1 >= LockCountActive(i.cfg)
            && Sub32(i.nowMs, d.acqStartMs) >= AcquireMinMsActive(i.cfg))
  {
    hide Average, AddResidual;
  }

  lemma DisciplinedStep(d: State, i: Input)
    requires InRange(d) && d.state == DISCIPLINED && ValidateConfig(i.cfg)
    ensures var e := AddResidual(Average(Gate(d, i.ppsValid, i.nowMs), i.n, i.cfg), i.n);
      var d' := Step(d, i);
      && (d'.state == DISCIPLINED && !Evaluated(i) ==> d'.unlockStreak == d.unlockStreak)
      && (d'.state == DISCIPLINED && Evaluated(i) ==>
            d'.unlockStreak == 0 || (d'.unlockStreak <= d.unlockStreak + 1 && UnlockBad(e, i.anomaly, i.cfg)))
      && (d'.state == ACQUIRE ==>
            && Evaluated(i) && UnlockBad(e, i.anomaly, i.cfg) && d.unlockStreak + 1 >= UnlockCountActive(i.cfg)
            && d'.acqStartMs == i.nowMs && d'.lockStreak == 0 && d'.unlockStreak == 0)
      && d'.state != FREE_RUN
  {
    hide Average, AddResidual;
  }

  lemma IdleStep(d: State, i: Input)
    requires InRange(d) && d.state in {FREE_RUN, HOLDOVER} && ValidateConfig(i.cfg)
    ensures var e := AddResidual(Average(Gate(d, i.ppsValid, i.nowMs), i.n, i.cfg), i.n);
      var d' := Step(d, i);
      && d'.state != DISCIPLINED
      && (d'.state == ACQUIRE ==>
            && d'.acqStartMs == i.nowMs && d'.unlockStreak == 0
            && (d'.lockStreak == 0 || (d'.lockStreak == 1 && Evaluated(i) && LockOk(e, i.anomaly, i.cfg))))
  {
    hide Average, AddResidual;
  }

  // ---- records survive one more call ----

  lemma PrefixStates(h: seq<Input>, i: nat, nominal: u32)
    requires |h| > 0 && i < |h|
    ensures StateAt(h[..|h| - 1], i, nominal) == StateAt(h, i, nominal)
    ensures i < |h| - 1 ==> Passes(h[..|h| - 1], i, nominal) == Passes(h, i, nominal)
    ensures i < |h| - 1 ==> Fails(h[..|h| - 1], i, nominal) == Fails(h, i, nominal)
  {
    assert h[..|h| - 1][..i] == h[..i];
  }

  lemma StaysIn(h: seq<Input>, j: nat, s: DiscState, nominal: u32)
    requires |h| > 0 && InSince(h[..|h| - 1], j, s, nominal) && After(h, nominal).state == s
    ensures InSince(h, j, s, nominal)
  {
    hide After;
    PrefixStates(h, j, nominal);
    forall i | j < i <= |h| ensures StateAt(h, i, nominal) == s {
      if i < |h| {
        PrefixStates(h, i, nominal);
      } else {
        assert h[..i] == h;
      }
    }
  }

  lemma Enters(h: seq<Input>, s: DiscState, nominal: u32)
    requires |h| > 0 && After(h[..|h| - 1], nominal).state != s && After(h, nominal).state == s
    ensures InSince(h, |h| - 1, s, nominal)
  {
    hide After;
    assert h[..|h|] == h;
  }

  lemma PassingRunGrows(h: seq<Input>, m: nat, count: nat, nominal: u32)
    requires |h| > 0 && m < |h| && PassingRun(h[..|h| - 1], m, count, nominal)
    requires Evaluated(h[|h| - 1]) ==> Passes(h, |h| - 1, nominal)
    ensures PassingRun(h, m, count + if Evaluated(h[|h| - 1]) then 1 else 0, nominal)
  {
    hide After, Passes;
    forall i | m <= i < |h| && Evaluated(h[i]) ensures Passes(h, i, nominal) {
      PrefixStates(h, i, nominal);
    }
  }

  lemma FailingRunGrows(h: seq<Input>, m: nat, count: nat, nominal: u32)
    requires |h| > 0 && m < |h| && FailingRun(h[..|h| - 1], m, count, nominal)
    requires Evaluated(h[|h| - 1]) ==> Fails(h, |h| - 1, nominal)
    ensures FailingRun(h, m, count + if Evaluated(h[|h| - 1]) then 1 else 0, nominal)
  {
    hide After, Fails;
    forall i | m <= i < |h| && Evaluated(h[i]) ensures Fails(h, i, nominal) {
      PrefixStates(h, i, nominal);
    }
  }

  /** What the fields of the machine record about the run so far. */
  ghost predicate Recorded(h: seq<Input>, nominal: u32) {
    var d := After(h, nominal);
    && (d.state in {FREE_RUN, ACQUIRE} ==> d.unlockStreak == 0)
    && (d.state == ACQUIRE ==> exists j: nat, m: nat :: AcquireRecord(h, j, m, d, nominal))
    && (d.state == DISCIPLINED ==> exists k: nat, m: nat :: LockRecord(h, k, m, d, nominal))
  }

  lemma RecordFromAcquire(h: seq<Input>, nominal: u32)
    requires |h| > 0 && ValidateConfig(h[|h| - 1].cfg)
    requires Recorded(h[..|h| - 1], nominal) && After(h[..|h| - 1], nominal).state == ACQUIRE
    ensures Recorded(h, nominal)
  {
    var last := |h| - 1;
    var d, d' := After(h[..last], nominal), After(h, nominal);
    AcquireStep(d, h[last]);
    hide After, Step, Average, AddResidual, Gate, LockOk;
    var j: nat, m: nat :| AcquireRecord(h[..last], j, m, d, nominal);
    if d'.state == ACQUIRE {
      StaysIn(h, j, ACQUIRE, nominal);
      if d'.lockStreak == 0 {
        assert PassingRun(h, |h|, 0, nominal);
        assert AcquireRecord(h, j, |h|, d', nominal);
      } else {
        PassingRunGrows(h, m, d.lockStreak, nominal);
        assert AcquireRecord(h, j, m, d', nominal);
      }
    } else if d'.state == DISCIPLINED {
      Enters(h, DISCIPLINED, nominal);
      assert FailingRun(h, |h|, 0, nominal);
      assert LockRecord(h, last, |h|, d', nominal);
    }
  }

  lemma RecordFromDisciplined(h: seq<Input>, nominal: u32)
    requires |h| > 0 && ValidateConfig(h[|h| - 1].cfg)
    requires Recorded(h[..|h| - 1], nominal) && After(h[..|h| - 1], nominal).state == DISCIPLINED
    ensures Recorded(h, nominal)
  {
    var last := |h| - 1;
    var d, d' := After(h[..last], nominal), After(h, nominal);
    DisciplinedStep(d, h[last]);
    hide After, Step, Average, AddResidual, Gate, UnlockBad;
    var k: nat, m: nat :| LockRecord(h[..last], k, m, d, nominal);
    if d'.state == DISCIPLINED {
      StaysIn(h, k, DISCIPLINED, nominal);
      if d'.unlockStreak == 0 {
        assert FailingRun(h, |h|, 0, nominal);
        assert LockRecord(h, k, |h|, d', nominal);
      } else {
        FailingRunGrows(h, m, d.unlockStreak, nominal);
        assert LockRecord(h, k, m, d', nominal);
      }
    } else if d'.state == ACQUIRE {
      Enters(h, ACQUIRE, nominal);
      assert PassingRun(h, |h|, 0, nominal);
      assert AcquireRecord(h, last, |h|, d', nominal);
    }
  }

  lemma RecordFromIdle(h: seq<Input>, nominal: u32)
    requires |h| > 0 && ValidateConfig(h[|h| - 1].cfg)
    requires After(h[..|h| - 1], nominal).state in {FREE_RUN, HOLDOVER}
    ensures Recorded(h, nominal)
  {
    var last := |h| - 1;
    var d, d' := After(h[..last], nominal), After(h, nominal);
    IdleStep(d, h[last]);
    FreeRunClearsStreaks(d, h[last]);
    hide After, Step, Average, AddResidual, Gate, LockOk;
    if d'.state == ACQUIRE {
      Enters(h, ACQUIRE, nominal);
      if d'.lockStreak == 0 {
        assert PassingRun(h, |h|, 0, nominal);
        assert AcquireRecord(h, last, |h|, d', nominal);
      } else {
        assert PassingRun(h[..last], last, 0, nominal);
        PassingRunGrows(h, last, 0, nominal);
        assert AcquireRecord(h, last, last, d', nominal);
      }
    }
  }

  lemma FreeRunClearsStreaks(d: State, i: Input)
    requires InRange(d)
    ensures Step(d, i).state == FREE_RUN ==> Step(d, i).unlockStreak == 0
  {
    hide Gate, Evaluate;
  }

  lemma {:induction false} AlwaysRecorded(h: seq<Input>, nominal: u32)
    requires Validated(h)
    ensures Recorded(h, nominal)
  {
    if |h| > 0 {
      AlwaysRecorded(h[..|h| - 1], nominal);
      if After(h[..|h| - 1], nominal).state == ACQUIRE {
        RecordFromAcquire(h, nominal);
      } else if After(h[..|h| - 1], nominal).state == DISCIPLINED {
        RecordFromDisciplined(h, nominal);
      } else {
        RecordFromIdle(h, nominal);
      }
    }
  }

  // ---- the theorems ----

  /** The calls happened at these times on a clock that never wraps. */
  predicate Clocked(h: seq<Input>, t: seq<nat>) {
    && |t| == |h|
    && (forall i :: 0 <= i < |h| ==> h[i].nowMs == Wrap32(t[i]))
    && (forall i, j :: 0 <= i < j < |t| ==> t[i] <= t[j])
  }

  lemma ElapsedIsAtLeast(start: nat, now: nat)
    requires start <= now
    ensures Sub32(Wrap32(now), Wrap32(start)) <= now - start
  {
  }

  /** Call j entered ACQUIRE for the last time before the final call, at least the acquire
      time earlier on the 32-bit clock; from call m, no earlier than j, every evaluated call
      passed, and they are at least lockCount. */
  predicate LockWarrant(h: seq<Input>, j: nat, m: nat, nominal: u32)
    requires 0 < |h|
  {
    var last := h[|h| - 1];
    && j <= m < |h| && InSince(h[..|h| - 1], j, ACQUIRE, nominal)
    && Sub32(last.nowMs, h[j].nowMs) >= AcquireMinMsActive(last.cfg)
    && PassingRun(h, m, LockCountActive(last.cfg), nominal) && Evaluated(last)
  }

  /** Call k locked for the last time; from call m, later than k, every evaluated call
      failed, and they are at least unlockCount. */
  predicate UnlockWarrant(h: seq<Input>, k: nat, m: nat, nominal: u32)
    requires 0 < |h|
  {
    var last := h[|h| - 1];
    && k < m < |h| && InSince(h[..|h| - 1], k, DISCIPLINED, nominal)
    && FailingRun(h, m, UnlockCountActive(last.cfg), nominal) && Evaluated(last)
  }

  lemma LockingCall(h: seq<Input>, nominal: u32)
    requires |h| > 0 && ValidateConfig(h[|h| - 1].cfg)
    requires Recorded(h[..|h| - 1], nominal)
    requires StateAt(h, |h| - 1, nominal) != DISCIPLINED && After(h, nominal).state == DISCIPLINED
    ensures var d, last := After(h[..|h| - 1], nominal), h[|h| - 1];
      && d.state == ACQUIRE && Evaluated(last) && Passes(h, |h| - 1, nominal)
      && d.lockStreak + 1 >= LockCountActive(last.cfg)
      && Sub32(last.nowMs, d.acqStartMs) >= AcquireMinMsActive(last.cfg)
  {
    var d := After(h[..|h| - 1], nominal);
    if d.state in {FREE_RUN, HOLDOVER} {
      IdleStep(d, h[|h| - 1]);
    } else {
      AcquireStep(d, h[|h| - 1]);
    }
    hide Step, Average, AddResidual, Gate, LockOk, AcquireRecord, LockRecord;
  }

  lemma UnlockingCall(h: seq<Input>, nominal: u32)
    requires |h| > 0 && ValidateConfig(h[|h| - 1].cfg)
    requires StateAt(h, |h| - 1, nominal) == DISCIPLINED && After(h, nominal).state == ACQUIRE
    ensures Evaluated(h[|h| - 1]) && Fails(h, |h| - 1, nominal)
    ensures After(h[..|h| - 1], nominal).unlockStreak + 1 >= UnlockCountActive(h[|h| - 1].cfg)
  {
    DisciplinedStep(After(h[..|h| - 1], nominal), h[|h| - 1]);
    hide Step, Average, AddResidual, Gate, UnlockBad;
  }

  lemma LockHasWarrant(h: seq<Input>, nominal: u32)
    requires Validated(h) && |h| > 0
    requires StateAt(h, |h| - 1, nominal) != DISCIPLINED && After(h, nominal).state == DISCIPLINED
    ensures exists j: nat, m: nat :: LockWarrant(h, j, m, nominal)
  {
    hide After, Passes, Evaluated, ValidateConfig, LockCountActive, AcquireMinMsActive;
    var last: nat := |h| - 1;
    var d := After(h[..last], nominal);
    AlwaysRecorded(h[..last], nominal);
    LockingCall(h, nominal);
    var j: nat, m: nat :| AcquireRecord(h[..last], j, m, d, nominal);
    PassingRunGrows(h, m, d.lockStreak, nominal);
    assert LockWarrant(h, j, m, nominal);
  }

  lemma WarrantFromRecord(h: seq<Input>, k: nat, m: nat, nominal: u32)
    requires Validated(h) && |h| > 0
    requires StateAt(h, |h| - 1, nominal) == DISCIPLINED && After(h, nominal).state == ACQUIRE
    requires LockRecord(h[..|h| - 1], k, m, After(h[..|h| - 1], nominal), nominal)
    ensures UnlockWarrant(h, k, m, nominal)
  {
    hide After, Fails, Evaluated, ValidateConfig, UnlockCountActive;
    UnlockingCall(h, nominal);
    FailingRunGrows(h, m, After(h[..|h| - 1], nominal).unlockStreak, nominal);
  }

  lemma UnlockHasWarrant(h: seq<Input>, nominal: u32)
    requires Validated(h) && |h| > 0
    requires StateAt(h, |h| - 1, nominal) == DISCIPLINED && After(h, nominal).state == ACQUIRE
    ensures exists k: nat, m: nat :: UnlockWarrant(h, k, m, nominal)
  {
    var last := h[..|h| - 1];
    AlwaysRecorded(last, nominal);
    assert Recorded(last, nominal) && After(last, nominal).state == DISCIPLINED;
    hide After, LockRecord, UnlockWarrant;
    var k: nat, m: nat :| LockRecord(last, k, m, After(last, nominal), nominal);
    WarrantFromRecord(h, k, m, nominal);
    assert UnlockWarrant(h, k, m, nominal);
  }

  // ---- a warrant is enough ----

  /** The machine's answer to a call, state by state; `passes` and `fails` are the verdicts
      on the estimates the call is judged by. */
  predicate AcquireAnswer(d: State, i: Input, passes: bool, d': State) {
    var streak := if passes then Count(d.lockStreak) else 0;
    var locks := streak >= LockCountActive(i.cfg) && Sub32(i.nowMs, d.acqStartMs) >= AcquireMinMsActive(i.cfg);
    && (!i.ppsValid ==> d'.state == FREE_RUN)
    && (i.ppsValid && !Evaluated(i) ==>
          d'.state == ACQUIRE && d'.lockStreak == d.lockStreak && d'.acqStartMs == d.acqStartMs)
    && (Evaluated(i) ==> d'.state == if locks then DISCIPLINED else ACQUIRE)
    && (Evaluated(i) && !locks ==> d'.lockStreak == streak && d'.acqStartMs == d.acqStartMs)
  }

  predicate DisciplinedAnswer(d: State, i: Input, passes: bool, fails: bool, d': State) {
    var streak := if fails then Count(d.unlockStreak) else 0;
    var unlocks := streak >= UnlockCountActive(i.cfg);
    && (!i.ppsValid ==> d'.state == HOLDOVER && d'.holdoverStartMs == i.nowMs)
    && (i.ppsValid && !Evaluated(i) ==> d'.state == DISCIPLINED && d'.unlockStreak == d.unlockStreak)
    && (Evaluated(i) ==> d'.state == if unlocks then ACQUIRE else DISCIPLINED)
    && (Evaluated(i) && !unlocks ==> d'.unlockStreak == streak)
    && (Evaluated(i) && unlocks ==> d'.acqStartMs == i.nowMs && !passes)
  }

  predicate IdleAnswer(d: State, i: Input, passes: bool, d': State) {
    && (i.ppsValid ==> d'.state == ACQUIRE && d'.acqStartMs == i.nowMs)
    && (i.ppsValid ==> d'.lockStreak == if Evaluated(i) && passes then 1 else 0)
    && (!i.ppsValid && d.state == FREE_RUN ==> d'.state == FREE_RUN)
    && (!i.ppsValid && d.state == HOLDOVER ==>
          && d'.state == (if Sub32(i.nowMs, d.holdoverStartMs) > HoldoverMsActive(i.cfg) then FREE_RUN else HOLDOVER)
          && d'.holdoverStartMs == d.holdoverStartMs)
  }

  lemma StepAnswers(d: State, i: Input)
    requires InRange(d) && ValidateConfig(i.cfg)
    ensures var e := AddResidual(Average(Gate(d, i.ppsValid, i.nowMs), i.n, i.cfg), i.n);
      var passes, fails := LockOk(e, i.anomaly, i.cfg), UnlockBad(e, i.anomaly, i.cfg);
      && (d.state == ACQUIRE ==> AcquireAnswer(d, i, passes, Step(d, i)))
      && (d.state == DISCIPLINED ==> DisciplinedAnswer(d, i, passes, fails, Step(d, i)))
      && (d.state in {FREE_RUN, HOLDOVER} ==> IdleAnswer(d, i, passes, Step(d, i)))
  {
    hide Average, AddResidual;
  }

  /** The answer to the last call of a run. */
  lemma LastAnswer(h: seq<Input>, nominal: u32)
    requires Validated(h) && |h| > 0
    ensures var last: nat := |h| - 1;
      var d, d' := After(h[..last], nominal), After(h, nominal);
      && (d.state == ACQUIRE ==> AcquireAnswer(d, h[last], Passes(h, last, nominal), d'))
      && (d.state == DISCIPLINED ==>
            DisciplinedAnswer(d, h[last], Passes(h, last, nominal), Fails(h, last, nominal), d'))
      && (d.state in {FREE_RUN, HOLDOVER} ==> IdleAnswer(d, h[last], Passes(h, last, nominal), d'))
  {
    StepAnswers(After(h[..|h| - 1], nominal), h[|h| - 1]);
    hide Step, Average, AddResidual, Gate, LockOk, UnlockBad, AcquireAnswer, DisciplinedAnswer, IdleAnswer;
  }

  /** Every evaluated call from m on passed. */
  predicate AllPass(h: seq<Input>, m: nat, nominal: u32) {
    forall i :: m <= i < |h| && Evaluated(h[i]) ==> Passes(h, i, nominal)
  }

  predicate AllFail(h: seq<Input>, m: nat, nominal: u32) {
    forall i :: m <= i < |h| && Evaluated(h[i]) ==> Fails(h, i, nominal)
  }

  /** The streaks miss no call, up to where they saturate; and the acquire time starts when
      the state was entered. */
  ghost predicate Counted(h: seq<Input>, nominal: u32) {
    var d := After(h, nominal);
    && (forall j: nat, m: nat :: InSince(h, j, ACQUIRE, nominal) && j <= m <= |h| && AllPass(h, m, nominal) ==>
          d.lockStreak >= Min(EvaluatedFrom(h, m), 255))
    && (forall j: nat :: j < |h| && InSince(h, j, ACQUIRE, nominal) ==> d.acqStartMs == h[j].nowMs)
    && (forall k: nat, m: nat :: InSince(h, k, DISCIPLINED, nominal) && k < m <= |h| && AllFail(h, m, nominal) ==>
          d.unlockStreak >= Min(EvaluatedFrom(h, m), 255))
  }

  lemma AllPassBefore(h: seq<Input>, m: nat, nominal: u32)
    requires |h| > 0 && m < |h|
    ensures AllPass(h, m, nominal) <==>
            AllPass(h[..|h| - 1], m, nominal) && (Evaluated(h[|h| - 1]) ==> Passes(h, |h| - 1, nominal))
    ensures AllFail(h, m, nominal) <==>
            AllFail(h[..|h| - 1], m, nominal) && (Evaluated(h[|h| - 1]) ==> Fails(h, |h| - 1, nominal))
  {
    hide Passes, Fails, After;
    forall i: nat | i < |h| - 1
      ensures Passes(h[..|h| - 1], i, nominal) == Passes(h, i, nominal)
      ensures Fails(h[..|h| - 1], i, nominal) == Fails(h, i, nominal)
    {
      PrefixStates(h, i, nominal);
    }
  }

  /** Seen from the last call, the entry into the present state is that call or an earlier one. */
  lemma EntryBefore(h: seq<Input>, j: nat, s: DiscState, nominal: u32)
    requires |h| > 0 && InSince(h, j, s, nominal)
    ensures After(h, nominal).state == s
    ensures if j == |h| - 1 then After(h[..|h| - 1], nominal).state != s
            else InSince(h[..|h| - 1], j, s, nominal) && After(h[..|h| - 1], nominal).state == s
  {
    hide After;
    assert h[..|h|] == h;
    assert StateAt(h, |h|, nominal) == s;
    var prefix := h[..|h| - 1];
    PrefixStates(h, j, nominal);
    if j < |prefix| {
      forall i: nat | j < i <= |prefix|
        ensures StateAt(prefix, i, nominal) == s
      {
        PrefixStates(h, i, nominal);
        assert StateAt(h, i, nominal) == s;
      }
      assert StateAt(prefix, |prefix|, nominal) == s;
      assert prefix[..|prefix|] == prefix;
    } else {
      assert prefix[..j] == prefix;
    }
  }

  lemma {:induction false} AlwaysCounted(h: seq<Input>, nominal: u32)
    requires Validated(h)
    ensures Counted(h, nominal)
  {
    hide After, InSince, AllPass, AllFail;
    if |h| == 0 {
      NothingEntered(h, nominal);
    } else {
      AlwaysCounted(h[..|h| - 1], nominal);
      forall j: nat, m: nat | InSince(h, j, ACQUIRE, nominal) && j <= m <= |h| && AllPass(h, m, nominal)
        ensures After(h, nominal).lockStreak >= Min(EvaluatedFrom(h, m), 255)
      {
        PassesCounted(h, j, m, nominal);
      }
      forall j: nat | j < |h| && InSince(h, j, ACQUIRE, nominal)
        ensures After(h, nominal).acqStartMs == h[j].nowMs
      {
        AcquireTimed(h, j, nominal);
      }
      forall k: nat, m: nat | InSince(h, k, DISCIPLINED, nominal) && k < m <= |h| && AllFail(h, m, nominal)
        ensures After(h, nominal).unlockStreak >= Min(EvaluatedFrom(h, m), 255)
      {
        FailuresCounted(h, k, m, nominal);
      }
    }
  }

  lemma NothingEntered(h: seq<Input>, nominal: u32)
    requires h == []
    ensures Counted(h, nominal)
  {
  }

  lemma AcquireTimed(h: seq<Input>, j: nat, nominal: u32)
    requires Validated(h) && |h| > 0 && InSince(h, j, ACQUIRE, nominal) && Counted(h[..|h| - 1], nominal)
    ensures After(h, nominal).acqStartMs == h[j].nowMs
  {
    EntryBefore(h, j, ACQUIRE, nominal);
    LastAnswer(h, nominal);
    hide After, Passes, Fails, AllPass, AllFail, ValidateConfig, Sub32, Evaluated;
  }

  lemma PassesCounted(h: seq<Input>, j: nat, m: nat, nominal: u32)
    requires Validated(h) && |h| > 0 && InSince(h, j, ACQUIRE, nominal) && Counted(h[..|h| - 1], nominal)
    requires j <= m <= |h| && AllPass(h, m, nominal)
    ensures After(h, nominal).lockStreak >= Min(EvaluatedFrom(h, m), 255)
  {
    hide After, Passes, Fails, AllPass, AllFail, ValidateConfig, Sub32, Evaluated;
    if m < |h| {
      EntryBefore(h, j, ACQUIRE, nominal);
      AllPassBefore(h, m, nominal);
      LastAnswer(h, nominal);
      assert m == |h| - 1 ==> EvaluatedFrom(h[..|h| - 1], m) == 0;
    }
  }

  lemma FailuresCounted(h: seq<Input>, k: nat, m: nat, nominal: u32)
    requires Validated(h) && |h| > 0 && InSince(h, k, DISCIPLINED, nominal) && Counted(h[..|h| - 1], nominal)
    requires k < m <= |h| && AllFail(h, m, nominal)
    ensures After(h, nominal).unlockStreak >= Min(EvaluatedFrom(h, m), 255)
  {
    hide After, Passes, Fails, AllPass, AllFail, ValidateConfig, Sub32, Evaluated;
    if m < |h| {
      EntryBefore(h, k, DISCIPLINED, nominal);
      AllPassBefore(h, m, nominal);
      LastAnswer(h, nominal);
    }
  }

  /** What the prefix of a warranted lock records. */
  lemma LockCounts(h: seq<Input>, j: nat, m: nat, nominal: u32)
    requires Validated(h) && InSince(h, j, ACQUIRE, nominal) && j <= m <= |h| && AllPass(h, m, nominal)
    ensures After(h, nominal).state == ACQUIRE && After(h, nominal).acqStartMs == h[j].nowMs
    ensures After(h, nominal).lockStreak >= Min(EvaluatedFrom(h, m), 255)
  {
    AlwaysCounted(h, nominal);
    assert h[..|h|] == h;
    assert StateAt(h, |h|, nominal) == ACQUIRE;
    hide After, AllPass, AllFail;
  }

  lemma UnlockCounts(h: seq<Input>, k: nat, m: nat, nominal: u32)
    requires Validated(h) && InSince(h, k, DISCIPLINED, nominal) && k < m <= |h| && AllFail(h, m, nominal)
    ensures After(h, nominal).state == DISCIPLINED
    ensures After(h, nominal).unlockStreak >= Min(EvaluatedFrom(h, m), 255)
  {
    AlwaysCounted(h, nominal);
    assert h[..|h|] == h;
    assert StateAt(h, |h|, nominal) == DISCIPLINED;
    hide After, AllPass, AllFail;
  }

  lemma StreakLocks(d: State, i: Input, d': State, count: nat)
    requires AcquireAnswer(d, i, true, d') && Evaluated(i) && d.lockStreak >= Min(count, 255)
    requires count + 1 >= LockCountActive(i.cfg) && Sub32(i.nowMs, d.acqStartMs) >= AcquireMinMsActive(i.cfg)
    ensures d'.state == DISCIPLINED
  {
    hide Sub32, Evaluated;
  }

  lemma StreakUnlocks(d: State, i: Input, passes: bool, d': State, count: nat)
    requires DisciplinedAnswer(d, i, passes, true, d') && Evaluated(i) && d.unlockStreak >= Min(count, 255)
    requires count + 1 >= UnlockCountActive(i.cfg)
    ensures d'.state == ACQUIRE
  {
    hide Sub32, Evaluated;
  }

  lemma LockParts(h: seq<Input>, j: nat, m: nat, nominal: u32)
    requires |h| > 0 && LockWarrant(h, j, m, nominal)
    ensures var prefix, last := h[..|h| - 1], h[|h| - 1];
      && InSince(prefix, j, ACQUIRE, nominal) && j <= m <= |prefix| && AllPass(prefix, m, nominal)
      && EvaluatedFrom(prefix, m) + 1 >= LockCountActive(last.cfg)
    ensures Evaluated(h[|h| - 1]) && Passes(h, |h| - 1, nominal)
  {
    assert AllPass(h, m, nominal);
    AllPassBefore(h, m, nominal);
    hide InSince, AllPass, AllFail, Passes, Sub32, LockCountActive, AcquireMinMsActive;
  }

  lemma UnlockParts(h: seq<Input>, k: nat, m: nat, nominal: u32)
    requires |h| > 0 && UnlockWarrant(h, k, m, nominal)
    ensures var prefix, last := h[..|h| - 1], h[|h| - 1];
      && InSince(prefix, k, DISCIPLINED, nominal) && k < m <= |prefix| && AllFail(prefix, m, nominal)
      && EvaluatedFrom(prefix, m) + 1 >= UnlockCountActive(last.cfg)
    ensures Evaluated(h[|h| - 1]) && Fails(h, |h| - 1, nominal)
  {
    assert AllFail(h, m, nominal);
    AllPassBefore(h, m, nominal);
    hide InSince, AllPass, AllFail, Fails, UnlockCountActive;
  }

  lemma WarrantLocks(h: seq<Input>, j: nat, m: nat, nominal: u32)
    requires Validated(h) && |h| > 0 && LockWarrant(h, j, m, nominal)
    ensures After(h, nominal).state == DISCIPLINED
  {
    LockParts(h, j, m, nominal);
    hide After, InSince, AllPass, AcquireAnswer, DisciplinedAnswer, IdleAnswer, ValidateConfig, Sub32, Evaluated,
         LockCountActive, AcquireMinMsActive, EvaluatedFrom, Passes, Fails, PassingRun;
    var prefix, last := h[..|h| - 1], h[|h| - 1];
    LockCounts(prefix, j, m, nominal);
    LastAnswer(h, nominal);
    StreakLocks(After(prefix, nominal), last, After(h, nominal), EvaluatedFrom(prefix, m));
  }

  lemma WarrantUnlocks(h: seq<Input>, k: nat, m: nat, nominal: u32)
    requires Validated(h) && |h| > 0 && UnlockWarrant(h, k, m, nominal)
    ensures After(h, nominal).state == ACQUIRE
  {
    UnlockParts(h, k, m, nominal);
    hide After, InSince, AllFail, AcquireAnswer, DisciplinedAnswer, IdleAnswer, ValidateConfig, Sub32, Evaluated,
         UnlockCountActive, EvaluatedFrom, Passes, Fails, UnlockWarrant;
    var prefix, last := h[..|h| - 1], h[|h| - 1];
    UnlockCounts(prefix, k, m, nominal);
    LastAnswer(h, nominal);
    StreakUnlocks(After(prefix, nominal), last, Passes(h, |h| - 1, nominal), After(h, nominal),
                  EvaluatedFrom(prefix, m));
  }

  /** A call locks if and only if it is warranted: the acquire time has passed, and the last
      lockCount evaluated calls since entering ACQUIRE, this one included, all passed. */
  lemma LockIsEarned(h: seq<Input>, nominal: u32)
    requires Validated(h) && |h| > 0 && StateAt(h, |h| - 1, nominal) != DISCIPLINED
    ensures After(h, nominal).state == DISCIPLINED <==> exists j: nat, m: nat :: LockWarrant(h, j, m, nominal)
  {
    hide After, LockWarrant;
    if After(h, nominal).state == DISCIPLINED {
      LockHasWarrant(h, nominal);
    }
    forall j: nat, m: nat | LockWarrant(h, j, m, nominal)
      ensures After(h, nominal).state == DISCIPLINED
    {
      WarrantLocks(h, j, m, nominal);
    }
  }

  /** ... and the acquire time has then passed in true milliseconds. */
  lemma LockTakesTime(h: seq<Input>, t: seq<nat>, j: nat, m: nat, nominal: u32)
    requires |h| > 0 && Clocked(h, t) && LockWarrant(h, j, m, nominal)
    ensures t[|h| - 1] - t[j] >= AcquireMinMsActive(h[|h| - 1].cfg)
  {
    ElapsedIsAtLeast(t[j], t[|h| - 1]);
    hide AcquireMinMsActive, InSince, PassingRun, Evaluated, Wrap32, Sub32;
  }

  /** A call unlocks if and only if it is warranted: unlockCount evaluated calls in a row
      failed, and the call that locked is not among them. */
  lemma UnlockIsEarned(h: seq<Input>, nominal: u32)
    requires Validated(h) && |h| > 0 && StateAt(h, |h| - 1, nominal) == DISCIPLINED
    ensures After(h, nominal).state == ACQUIRE <==> exists k: nat, m: nat :: UnlockWarrant(h, k, m, nominal)
  {
    hide After, UnlockWarrant;
    if After(h, nominal).state == ACQUIRE {
      UnlockHasWarrant(h, nominal);
    }
    forall k: nat, m: nat | UnlockWarrant(h, k, m, nominal)
      ensures After(h, nominal).state == ACQUIRE
    {
      WarrantUnlocks(h, k, m, nominal);
    }
  }

  // ---- the other transitions ----

  /** A pulse train that is valid acquires from FREE_RUN and HOLDOVER, and one that is not
      leaves ACQUIRE for FREE_RUN and DISCIPLINED for HOLDOVER; nothing else does. */
  lemma ValidityMoves(h: seq<Input>, nominal: u32)
    requires Validated(h) && |h| > 0
    ensures var before, s, valid := StateAt(h, |h| - 1, nominal), After(h, nominal).state, h[|h| - 1].ppsValid;
      && (before in {FREE_RUN, HOLDOVER} ==> (s == ACQUIRE <==> valid))
      && (before == FREE_RUN ==> (s == FREE_RUN <==> !valid))
      && (before == ACQUIRE ==> (s == FREE_RUN <==> !valid))
      && (before == DISCIPLINED ==> (s == HOLDOVER <==> !valid))
  {
    LastAnswer(h, nominal);
    hide After, Passes, Fails, ValidateConfig, Sub32, Evaluated;
  }

  /** Call i comes later than the holdover time after call k. */
  predicate PastHoldover(h: seq<Input>, k: nat, i: nat)
    requires k < |h| && i < |h|
  {
    Sub32(h[i].nowMs, h[k].nowMs) > HoldoverMsActive(h[i].cfg)
  }

  /** From the call that enters holdover on, and as long as no later call sees a valid pulse
      train, holdover lasts up to the first call past its time and is over from then on. */
  lemma {:induction false} HoldoverEnds(h: seq<Input>, k: nat, nominal: u32)
    requires Validated(h) && k < |h| && StateAt(h, k, nominal) != HOLDOVER && StateAt(h, k + 1, nominal) == HOLDOVER
    requires forall i :: k < i < |h| ==> !h[i].ppsValid
    ensures After(h, nominal).state ==
            if exists i :: k < i < |h| && PastHoldover(h, k, i) then FREE_RUN else HOLDOVER
    ensures After(h, nominal).state == HOLDOVER ==> After(h, nominal).holdoverStartMs == h[k].nowMs
    decreases |h|
  {
    hide After, PastHoldover;
    if |h| == k + 1 {
      assert h[..k + 1] == h;
      HoldoverBegins(h, nominal);
    } else {
      var prefix := h[..|h| - 1];
      assert prefix[..k] == h[..k] && prefix[..k + 1] == h[..k + 1];
      HoldoverEnds(prefix, k, nominal);
      assert forall i: nat :: k < i < |h| - 1 ==> PastHoldover(prefix, k, i) == PastHoldover(h, k, i) by {
        forall i: nat | k < i < |h| - 1 ensures PastHoldover(prefix, k, i) == PastHoldover(h, k, i) {
          SamePast(h, k, i);
        }
      }
      HoldoverGoesOn(h, k, nominal);
    }
  }

  lemma SamePast(h: seq<Input>, k: nat, i: nat)
    requires k < i < |h| - 1
    ensures PastHoldover(h[..|h| - 1], k, i) == PastHoldover(h, k, i)
  {
  }

  lemma HoldoverBegins(h: seq<Input>, nominal: u32)
    requires Validated(h) && |h| > 0 && StateAt(h, |h| - 1, nominal) != HOLDOVER && After(h, nominal).state == HOLDOVER
    ensures After(h, nominal).holdoverStartMs == h[|h| - 1].nowMs
  {
    LastAnswer(h, nominal);
    hide After, Passes, Fails, ValidateConfig, Sub32, Evaluated;
  }

  lemma HoldoverGoesOn(h: seq<Input>, k: nat, nominal: u32)
    requires Validated(h) && k + 1 < |h| && !h[|h| - 1].ppsValid
    ensures var before, d := After(h[..|h| - 1], nominal), After(h, nominal);
      && (before.state == FREE_RUN ==> d.state == FREE_RUN)
      && (before.state == HOLDOVER && before.holdoverStartMs == h[k].nowMs ==>
            && d.state == (if PastHoldover(h, k, |h| - 1) then FREE_RUN else HOLDOVER)
            && d.holdoverStartMs == h[k].nowMs)
  {
    LastAnswer(h, nominal);
    hide After, Passes, Fails, ValidateConfig, Sub32, Evaluated;
  }
}
