/** What the validator's state says about everything observed since the last reset. */
module PpsValidatorHistory {
  import opened Words
  import opened PpsValidator
  import RingWindow

  datatype Observation = Observation(cls: SampleClass, n: u32)

  /** The state after a reset and then these observations, in order. */
  function After(h: seq<Observation>, nominal: u32): State {
    if |h| == 0 then RESET
    else Observe(After(h[..|h| - 1], nominal), h[|h| - 1].cls, h[|h| - 1].n, nominal)
  }

  function Classes(h: seq<Observation>): (c: seq<SampleClass>)
    ensures |c| == |h|
  {
    seq(|h|, i requires 0 <= i < |h| => h[i].cls)
  }

  /** The class ring holds exactly the last min(count, 60) classes, in order. */
  lemma {:induction false} RingHoldsTheLatest(h: seq<Observation>, nominal: u32)
    ensures After(h, nominal).recent == RingWindow.Last(Classes(h), W_RATE)
  {
    if |h| > 0 {
      var prefix, last := h[..|h| - 1], h[|h| - 1];
      RingHoldsTheLatest(prefix, nominal);
      ObserveKeepsRing(After(prefix, nominal), last.cls, last.n, nominal);
      assert Classes(h) == Classes(prefix) + [last.cls];
      RingWindow.LastOfLast(Classes(prefix), last.cls, W_RATE);
    }
  }

  lemma ObserveKeepsRing(v: State, cls: SampleClass, n: u32, nominal: u32)
    ensures Observe(v, cls, n, nominal).recent == RingWindow.Last(v.recent + [cls], W_RATE)
  {
    hide RingWindow.Last;
  }

  /** Five accepted observations in a row, ending at k, with no gap from then on. */
  predicate RunSinceGap(h: seq<Observation>, k: nat) {
    && VALID_RUN <= k <= |h|
    && (forall i :: k - VALID_RUN <= i < k ==> h[i].cls == OK)
    && (forall i :: k <= i < |h| ==> h[i].cls != GAP)
  }

  predicate StreakIsReal(h: seq<Observation>, streak: nat) {
    streak <= |h| && forall i :: |h| - streak <= i < |h| ==> h[i].cls == OK
  }

  lemma StreakAfter(v: State, cls: SampleClass, n: u32, nominal: u32)
    ensures var w := Observe(v, cls, n, nominal);
      && (w.okStreak != 0 ==> cls == OK && w.okStreak <= v.okStreak + 1)
      && (w.ppsValid ==> CountOf(w.recent, HARD_GLITCH) < 2)
      && (w.ppsValid ==> w.okStreak >= VALID_RUN || (v.ppsValid && cls != GAP))
  {
    hide RingWindow.Last, CountOf;
  }

  /** Validity has a witness: fewer than two hard glitches among the last sixty, and five
      accepted samples in a row since the last gap. */
  lemma {:induction false} ValidityIsEarned(h: seq<Observation>, nominal: u32)
    ensures StreakIsReal(h, After(h, nominal).okStreak)
    ensures After(h, nominal).ppsValid ==>
      CountOf(RingWindow.Last(Classes(h), W_RATE), HARD_GLITCH) < 2 && exists k :: RunSinceGap(h, k)
  {
    hide Observe, RingWindow.Last, CountOf;
    RingHoldsTheLatest(h, nominal);
    if |h| > 0 {
      var prefix, last := h[..|h| - 1], h[|h| - 1];
      ValidityIsEarned(prefix, nominal);
      StreakAfter(After(prefix, nominal), last.cls, last.n, nominal);
      var w := After(h, nominal);
      if w.ppsValid {
        if w.okStreak >= VALID_RUN {
          assert RunSinceGap(h, |h|);
        } else {
          var k :| RunSinceGap(prefix, k);
          assert RunSinceGap(h, k);
        }
      }
    }
  }

  /** Validity does not mean a reference exists: five near-nominal intervals that disagree
      with each other are accepted before any three of them seed one. */
  lemma ValidWithoutReference(h: seq<Observation>, nominal: u32)
    requires nominal == 16_000_000 && |h| == 5
    requires forall i :: 0 <= i < 5 ==> h[i] == Observation(OK, if i % 2 == 0 then 12_000_000 else 20_000_000)
    ensures After(h, nominal).ppsValid && !After(h, nominal).refValid
    ensures forall i :: 0 <= i < 5 ==> Classify(After(h[..i], nominal), h[i].n, nominal) == h[i].cls
  {
    hide After, Classify, Disagreeing;
    forall i | 0 <= i < 5
      ensures Classify(After(h[..i], nominal), h[i].n, nominal) == h[i].cls
    {
      DisagreeingRun(h, i, nominal);
      DisagreeingClassify(After(h[..i], nominal), i, h[i].n, nominal);
    }
    DisagreeingRun(h, 5, nominal);
    assert h[..5] == h;
    DisagreeingEnd(After(h, nominal), 5);
  }

  /** The state after i accepted intervals that alternate between 12 and 20 million ticks. */
  predicate Disagreeing(v: State, i: nat) {
    && !v.refValid && v.okStreak == i == |v.recent| && (forall k :: 0 <= k < i ==> v.recent[k] == OK)
    && (v.ppsValid <==> i >= VALID_RUN)
    && if i == 0 then v.seedCount == 0
       else v.seedCount == 1 && v.seedCandidate == if i % 2 == 0 then 20_000_000 else 12_000_000
  }

  lemma DisagreeingEnd(v: State, i: nat)
    requires Disagreeing(v, i) && i == 5
    ensures v.ppsValid && !v.refValid
  {
  }

  lemma DisagreeingClassify(v: State, i: nat, n: u32, nominal: u32)
    requires Disagreeing(v, i) && nominal == 16_000_000 && n in {12_000_000, 20_000_000}
    ensures Classify(v, n, nominal) == OK
  {
  }

  lemma DisagreeingStep(v: State, n: u32, nominal: u32)
    requires nominal == 16_000_000 && n in {12_000_000, 20_000_000}
    requires !v.refValid && v.okStreak < 10 && |v.recent| < 10 && CountOf(v.recent + [OK], HARD_GLITCH) == 0
    requires v.seedCount == 0 ||
      (v.seedCount == 1 && v.seedCandidate in {12_000_000, 20_000_000} && v.seedCandidate != n)
    ensures Classify(v, n, nominal) == OK
    ensures var w := Observe(v, OK, n, nominal);
      && !w.refValid && w.okStreak == v.okStreak + 1 && w.seedCount == 1 && w.seedCandidate == n
      && w.recent == v.recent + [OK] && (w.ppsValid <==> v.ppsValid || w.okStreak >= VALID_RUN)
  {
    hide CountOf;
  }

  lemma {:induction false} AllOkHaveNoGlitch(s: seq<SampleClass>)
    requires forall i :: 0 <= i < |s| ==> s[i] == OK
    ensures CountOf(s, HARD_GLITCH) == 0
  {
    if |s| > 0 {
      AllOkHaveNoGlitch(s[..|s| - 1]);
    }
  }

  lemma DisagreeingNext(v: State, i: nat, n: u32, nominal: u32)
    requires nominal == 16_000_000 && i < 5 && n == (if i % 2 == 0 then 12_000_000 else 20_000_000)
    requires Disagreeing(v, i)
    ensures Disagreeing(Observe(v, OK, n, nominal), i + 1)
  {
    hide Observe;
    AllOkHaveNoGlitch(v.recent + [OK]);
    DisagreeingStep(v, n, nominal);
  }

  lemma {:induction false} DisagreeingRun(h: seq<Observation>, i: nat, nominal: u32)
    requires nominal == 16_000_000 && |h| == 5 && i <= 5
    requires forall k :: 0 <= k < 5 ==> h[k] == Observation(OK, if k % 2 == 0 then 12_000_000 else 20_000_000)
    ensures Disagreeing(After(h[..i], nominal), i)
  {
    hide Observe;
    if i > 0 {
      hide Disagreeing;
      DisagreeingRun(h, i - 1, nominal);
      assert h[..i][..i - 1] == h[..i - 1];
      DisagreeingNext(After(h[..i - 1], nominal), i - 1, h[i - 1].n, nominal);
    }
  }

  // ---- exactly when a reference is seeded ----

  predicate Near(h: seq<Observation>, k: nat, nominal: u32)
    requires k < |h|
  {
    InOkBand(h[k].n, nominal)
  }

  /** The candidate that interval k - 1 leaves: itself if it started a group, otherwise the
      mean with the one before. */
  function Candidate(h: seq<Observation>, k: nat, nominal: u32): u32
    requires 0 < k <= |h|
    decreases k, 0
  {
    if k < 2 || !Joins(h, k - 1, nominal) then h[k - 1].n else Mean(h[k - 2].n, 1, h[k - 1].n)
  }

  /** Interval k joins the candidate its predecessor left. */
  predicate Joins(h: seq<Observation>, k: nat, nominal: u32)
    requires k < |h|
    decreases k, 1
  {
    && k > 0 && Near(h, k - 1, nominal) && Near(h, k, nominal)
    && MutuallyConsistent(h[k].n, Candidate(h, k, nominal), STARTUP_CONSISTENCY)
  }

  /** Three consecutive near-nominal intervals: one that starts a group, and two that join. */
  predicate SeedsAt(h: seq<Observation>, k: nat, nominal: u32) {
    && 2 <= k < |h|
    && Near(h, k - 2, nominal) && !Joins(h, k - 2, nominal) && Joins(h, k - 1, nominal) && Joins(h, k, nominal)
  }

  lemma {:induction false} JoinsInPrefix(h: seq<Observation>, m: nat, k: nat, nominal: u32)
    requires k < m <= |h|
    ensures Joins(h[..m], k, nominal) == Joins(h, k, nominal)
    ensures SeedsAt(h[..m], k, nominal) == SeedsAt(h, k, nominal)
    decreases k
  {
    hide MutuallyConsistent, InOkBand, Mean;
    if k > 0 {
      JoinsInPrefix(h, m, k - 1, nominal);
    }
    if k > 1 {
      JoinsInPrefix(h, m, k - 2, nominal);
    }
  }

  /** Members of the running group: none, one that started it, or one that joined. */
  function GroupSize(h: seq<Observation>, nominal: u32): nat {
    var n := |h|;
    if n == 0 || !Near(h, n - 1, nominal) then 0 else if Joins(h, n - 1, nominal) then 2 else 1
  }

  predicate GroupRecorded(h: seq<Observation>, v: State, nominal: u32) {
    && v.seedCount == GroupSize(h, nominal)
    && v.seedCandidate == if v.seedCount == 0 then 0 else Candidate(h, |h|, nominal)
  }

  lemma ObserveSeeding(v: State, cls: SampleClass, n: u32, nominal: u32)
    ensures var w, s := Observe(v, cls, n, nominal), Seed(v, n, nominal);
      && (v.refValid ==> w.refValid)
      && (!v.refValid ==> w.refValid == s.refValid)
      && (!w.refValid ==> w.seedCount == s.seedCount && w.seedCandidate == s.seedCandidate)
      && (!w.refValid ==> w.okStreak == if cls == OK then (s.okStreak + 1) % 0x1_0000 else 0)
      && (!w.refValid ==>
            (w.ppsValid <==>
             ((v.ppsValid && cls != GAP) || w.okStreak >= VALID_RUN) && CountOf(w.recent, HARD_GLITCH) < 2))
  {
    hide RingWindow.Last, CountOf, MutuallyConsistent, Mean, InOkBand;
  }

  lemma {:induction false} NoSeedNoPairOfJoins(h: seq<Observation>, k: nat, nominal: u32)
    requires 0 < k < |h| && forall i :: !SeedsAt(h, i, nominal)
    ensures !(Joins(h, k - 1, nominal) && Joins(h, k, nominal))
  {
    hide MutuallyConsistent, InOkBand, Mean, Candidate;
    assert !SeedsAt(h, k, nominal);
    if k > 1 {
      NoSeedNoPairOfJoins(h, k - 1, nominal);
    }
  }

  lemma SeedStep(h: seq<Observation>, v: State, nominal: u32)
    requires |h| > 0 && !v.refValid && GroupRecorded(h[..|h| - 1], v, nominal)
    requires var prefix := h[..|h| - 1]; forall i :: !SeedsAt(prefix, i, nominal)
    ensures var w := Seed(v, h[|h| - 1].n, nominal);
      && (w.refValid <==> SeedsAt(h, |h| - 1, nominal))
      && (!w.refValid ==> GroupRecorded(h, w, nominal))
  {
    var prefix, last: nat := h[..|h| - 1], |h| - 1;
    if last > 0 {
      JoinsInPrefix(h, last, last - 1, nominal);
      SameCandidate(h, nominal);
    }
    if last > 1 {
      JoinsInPrefix(h, last, last - 2, nominal);
      NoSeedNoPairOfJoins(prefix, last - 1, nominal);
    }
    JoinsUnfolds(h, last, nominal);
    hide Joins, Candidate, MutuallyConsistent, InOkBand, Mean;
  }

  lemma JoinsUnfolds(h: seq<Observation>, k: nat, nominal: u32)
    requires k < |h|
    ensures Joins(h, k, nominal) <==>
      && k > 0 && Near(h, k - 1, nominal) && Near(h, k, nominal)
      && MutuallyConsistent(h[k].n, Candidate(h, k, nominal), STARTUP_CONSISTENCY)
    ensures Candidate(h, k + 1, nominal) == if Joins(h, k, nominal) then Mean(h[k - 1].n, 1, h[k].n) else h[k].n
    ensures k > 0 ==>
      Candidate(h, k, nominal) == if Joins(h, k - 1, nominal) then Mean(h[k - 2].n, 1, h[k - 1].n) else h[k - 1].n
  {
    hide MutuallyConsistent, Near, Mean;
  }

  lemma SameCandidate(h: seq<Observation>, nominal: u32)
    requires |h| > 1
    ensures Candidate(h[..|h| - 1], |h| - 1, nominal) == Candidate(h, |h| - 1, nominal)
  {
    hide MutuallyConsistent, Near, Mean;
    JoinsInPrefix(h, |h| - 1, |h| - 2, nominal);
  }

  /** A reference is in use exactly when, since the reset, three consecutive near-nominal
      intervals each joined the running candidate. */
  lemma {:induction false} ReferenceIffSeeded(h: seq<Observation>, nominal: u32)
    ensures After(h, nominal).refValid <==> exists k :: SeedsAt(h, k, nominal)
    ensures !After(h, nominal).refValid ==> GroupRecorded(h, After(h, nominal), nominal)
  {
    hide Observe, Seed, SeedsAt, GroupRecorded;
    if |h| == 0 {
      NothingRecorded(h, nominal);
    } else {
      var prefix, last := h[..|h| - 1], h[|h| - 1];
      var v := After(prefix, nominal);
      ReferenceIffSeeded(prefix, nominal);
      ObserveSeeding(v, last.cls, last.n, nominal);
      SeedsGrow(h, nominal);
      if !v.refValid {
        SeedStep(h, v, nominal);
        if !After(h, nominal).refValid {
          RecordCarries(h, Seed(v, last.n, nominal), After(h, nominal), nominal);
        }
      }
    }
  }

  lemma NothingRecorded(h: seq<Observation>, nominal: u32)
    requires h == []
    ensures GroupRecorded(h, RESET, nominal) && forall k :: !SeedsAt(h, k, nominal)
  {
  }

  lemma RecordCarries(h: seq<Observation>, v: State, w: State, nominal: u32)
    requires v.seedCount == w.seedCount && v.seedCandidate == w.seedCandidate
    ensures GroupRecorded(h, v, nominal) == GroupRecorded(h, w, nominal)
  {
  }

  lemma SeedsGrow(h: seq<Observation>, nominal: u32)
    requires |h| > 0
    ensures var prefix, last: nat := h[..|h| - 1], |h| - 1;
      (exists k :: SeedsAt(h, k, nominal)) <==> (exists k :: SeedsAt(prefix, k, nominal)) || SeedsAt(h, last, nominal)
  {
    hide Joins;
    var prefix := h[..|h| - 1];
    forall k: nat | k < |h| - 1
      ensures SeedsAt(prefix, k, nominal) == SeedsAt(h, k, nominal)
    {
      JoinsInPrefix(h, |h| - 1, k, nominal);
    }
  }

  // ---- validity is exactly earned ----

  /** Observation i replaced a reference that had run away. */
  predicate ReseedsAt(h: seq<Observation>, i: nat, nominal: u32)
    requires i < |h|
  {
    After(h[..i + 1], nominal).recoveryReseeds != After(h[..i], nominal).recoveryReseeds
  }

  /** The streak: accepted observations in a row, started over by a reseed and, while no
      reference is in use, by an interval that is not near nominal. */
  function Streak(h: seq<Observation>, nominal: u32): nat {
    var n := |h|;
    if n == 0 || h[n - 1].cls != OK || ReseedsAt(h, n - 1, nominal) then 0
    else if !After(h[..n - 1], nominal).refValid && !Near(h, n - 1, nominal) then 1
    else Streak(h[..n - 1], nominal) + 1
  }

  function Glitches(h: seq<Observation>): nat {
    CountOf(RingWindow.Last(Classes(h), W_RATE), HARD_GLITCH)
  }

  predicate Breaks(h: seq<Observation>, i: nat, nominal: u32)
    requires i < |h|
  {
    h[i].cls == GAP || ReseedsAt(h, i, nominal)
  }

  /** A streak of five, and from then on no gap, no reseed, and never two hard glitches
      remembered. */
  predicate ValidFrom(h: seq<Observation>, k: nat, nominal: u32) {
    && k <= |h| && Streak(h[..k], nominal) >= VALID_RUN
    && (forall i :: k <= i < |h| ==> !Breaks(h, i, nominal))
    && (forall i :: k <= i <= |h| ==> Glitches(h[..i]) < 2)
  }

  ghost predicate Earned(h: seq<Observation>, nominal: u32) {
    exists k :: ValidFrom(h, k, nominal)
  }

  /** What one observation does to streak and validity. */
  lemma ObserveValidity(v: State, cls: SampleClass, n: u32, nominal: u32)
    ensures var w := Observe(v, cls, n, nominal);
      var reseeds := w.recoveryReseeds != v.recoveryReseeds;
      && w.okStreak == (if reseeds || cls != OK then 0
                        else if !v.refValid && !InOkBand(n, nominal) then 1
                        else (v.okStreak + 1) % 0x1_0000)
      && (w.ppsValid <==>
            ((v.ppsValid && cls != GAP && !reseeds) || w.okStreak >= VALID_RUN) && CountOf(w.recent, HARD_GLITCH) < 2)
      && (v.refValid ==> w.refValid) && (reseeds ==> w.refValid)
  {
    hide RingWindow.Last, CountOf, MutuallyConsistent, Mean, InOkBand;
  }

  lemma {:induction false} StreakIsOk(h: seq<Observation>, nominal: u32)
    ensures Streak(h, nominal) <= |h| && forall i :: |h| - Streak(h, nominal) <= i < |h| ==> h[i].cls == OK
  {
    hide InOkBand, After;
    if |h| > 0 {
      StreakIsOk(h[..|h| - 1], nominal);
    }
  }

  lemma LongStreakHasNoGlitch(h: seq<Observation>, nominal: u32)
    requires Streak(h, nominal) >= W_RATE
    ensures Glitches(h) == 0
  {
    StreakIsOk(h, nominal);
    AllOkHaveNoGlitch(RingWindow.Last(Classes(h), W_RATE));
  }

  lemma BreaksInPrefix(h: seq<Observation>, i: nat, nominal: u32)
    requires |h| > 0 && i < |h| - 1
    ensures Breaks(h[..|h| - 1], i, nominal) == Breaks(h, i, nominal)
  {
    var prefix := h[..|h| - 1];
    assert prefix[..i + 1] == h[..i + 1] && prefix[..i] == h[..i];
  }

  lemma ValidFromGrows(h: seq<Observation>, k: nat, nominal: u32)
    requires |h| > 0 && k < |h|
    ensures ValidFrom(h, k, nominal) <==>
            ValidFrom(h[..|h| - 1], k, nominal) && !Breaks(h, |h| - 1, nominal) && Glitches(h) < 2
  {
    hide Streak, Glitches, Breaks;
    var prefix := h[..|h| - 1];
    forall i: nat | i < |prefix| ensures Breaks(prefix, i, nominal) == Breaks(h, i, nominal) {
      BreaksInPrefix(h, i, nominal);
    }
    assert forall i :: 0 <= i <= |prefix| ==> prefix[..i] == h[..i];
    assert h[..|h|] == h;
  }

  lemma ValidFromNow(h: seq<Observation>, nominal: u32)
    ensures ValidFrom(h, |h|, nominal) <==> Streak(h, nominal) >= VALID_RUN && Glitches(h) < 2
  {
    hide Streak, Glitches;
    assert h[..|h|] == h;
  }

  lemma EarnedStep(h: seq<Observation>, nominal: u32)
    requires |h| > 0
    ensures Earned(h, nominal) <==>
      && Glitches(h) < 2
      && ((Earned(h[..|h| - 1], nominal) && !Breaks(h, |h| - 1, nominal)) || Streak(h, nominal) >= VALID_RUN)
  {
    var prefix := h[..|h| - 1];
    ValidFromNow(h, nominal);
    forall k: nat | k < |h|
      ensures ValidFrom(h, k, nominal) <==>
              ValidFrom(prefix, k, nominal) && !Breaks(h, |h| - 1, nominal) && Glitches(h) < 2
    {
      ValidFromGrows(h, k, nominal);
    }
    hide Glitches, Streak, Breaks;
  }

  lemma NothingEarned(h: seq<Observation>, nominal: u32)
    requires h == []
    ensures !Earned(h, nominal) && Streak(h, nominal) == 0
  {
  }

  lemma GlitchesAre(h: seq<Observation>, nominal: u32)
    ensures CountOf(After(h, nominal).recent, HARD_GLITCH) == Glitches(h)
  {
    RingHoldsTheLatest(h, nominal);
  }

  lemma StreakWraps(run: nat)
    ensures (run % 0x1_0000 + 1) % 0x1_0000 == (run + 1) % 0x1_0000
  {
  }

  lemma EarnedNow(h: seq<Observation>, nominal: u32)
    requires Streak(h, nominal) >= VALID_RUN && Glitches(h) < 2
    ensures Earned(h, nominal)
  {
    ValidFromNow(h, nominal);
  }

  lemma LastParts(h: seq<Observation>, nominal: u32)
    requires |h| > 0
    ensures var prefix, last, n: nat := h[..|h| - 1], h[|h| - 1], |h| - 1;
      var reseeds := After(h, nominal).recoveryReseeds != After(prefix, nominal).recoveryReseeds;
      && (Breaks(h, n, nominal) <==> last.cls == GAP || reseeds)
      && Streak(h, nominal) ==
         (if reseeds || last.cls != OK then 0
          else if !After(prefix, nominal).refValid && !InOkBand(last.n, nominal) then 1
          else Streak(prefix, nominal) + 1)
  {
    hide After, InOkBand;
    assert h[..|h|] == h;
  }

  lemma LastStep(h: seq<Observation>, nominal: u32)
    requires |h| > 0
    ensures After(h, nominal) == Observe(After(h[..|h| - 1], nominal), h[|h| - 1].cls, h[|h| - 1].n, nominal)
  {
    hide Observe;
  }

  /** The last observation of a run, seen from its streak. */
  lemma LastObservation(h: seq<Observation>, nominal: u32)
    requires |h| > 0 && After(h[..|h| - 1], nominal).okStreak == Streak(h[..|h| - 1], nominal) % 0x1_0000
    ensures After(h, nominal).okStreak == Streak(h, nominal) % 0x1_0000
    ensures After(h, nominal).ppsValid <==>
      && Glitches(h) < 2
      && ((After(h[..|h| - 1], nominal).ppsValid && !Breaks(h, |h| - 1, nominal))
          || After(h, nominal).okStreak >= VALID_RUN)
  {
    hide After, Observe, Glitches, InOkBand, Streak, Breaks, CountOf;
    var prefix, last := h[..|h| - 1], h[|h| - 1];
    LastStep(h, nominal);
    LastParts(h, nominal);
    GlitchesAre(h, nominal);
    ObserveValidity(After(prefix, nominal), last.cls, last.n, nominal);
    StreakWraps(Streak(prefix, nominal));
  }

  /** Validity, after any run since a reset, is exactly earned: by a streak of five with no
      gap, no reseed and fewer than two remembered hard glitches ever since, whatever the
      16-bit streak counter has done meanwhile. */
  lemma {:induction false} ValidIffEarned(h: seq<Observation>, nominal: u32)
    ensures After(h, nominal).okStreak == Streak(h, nominal) % 0x1_0000
    ensures After(h, nominal).ppsValid <==> exists k :: ValidFrom(h, k, nominal)
  {
    hide After, Streak, ValidFrom, Glitches, Breaks;
    if |h| == 0 {
      NothingEarned(h, nominal);
      NothingObserved(h, nominal);
    } else {
      var prefix := h[..|h| - 1];
      ValidIffEarned(prefix, nominal);
      LastObservation(h, nominal);
      EarnedStep(h, nominal);
      StreakGrowsByOne(h, nominal);
      if Streak(h, nominal) >= 0x1_0000 {
        LongStreakHasNoGlitch(prefix, nominal);
        EarnedNow(prefix, nominal);
      }
    }
  }

  lemma NothingObserved(h: seq<Observation>, nominal: u32)
    requires h == []
    ensures After(h, nominal) == RESET
  {
  }

  lemma StreakGrowsByOne(h: seq<Observation>, nominal: u32)
    requires |h| > 0
    ensures Streak(h, nominal) <= Streak(h[..|h| - 1], nominal) + 1
    ensures Streak(h, nominal) >= 2 ==> !Breaks(h, |h| - 1, nominal)
  {
    hide After, InOkBand;
  }

  // ---- exactly which valid runs lack a reference ----

  /** The streak while no reference is in use: accepted observations in a row, started over by
      one whose interval is not near nominal. */
  function OkRun(h: seq<Observation>, nominal: u32): nat {
    var n := |h|;
    if n == 0 || h[n - 1].cls != OK then 0
    else if !Near(h, n - 1, nominal) then 1
    else OkRun(h[..n - 1], nominal) + 1
  }

  /** A streak of five, and from then on no gap and never two hard glitches remembered. */
  predicate ValidSince(h: seq<Observation>, k: nat, nominal: u32) {
    && k <= |h| && OkRun(h[..k], nominal) >= VALID_RUN
    && (forall i :: k <= i < |h| ==> h[i].cls != GAP)
    && (forall i :: k <= i <= |h| ==> Glitches(h[..i]) < 2)
  }

  /** Without a reference there was none before, and nothing to reseed. */
  lemma {:induction false} NeverReferenced(h: seq<Observation>, i: nat, nominal: u32)
    requires i <= |h| && !After(h, nominal).refValid
    ensures !After(h[..i], nominal).refValid && Streak(h[..i], nominal) == OkRun(h[..i], nominal)
    ensures i < |h| ==> !ReseedsAt(h, i, nominal)
    decreases |h|, i
  {
    hide Observe, InOkBand;
    if |h| > 0 {
      var prefix, last := h[..|h| - 1], h[|h| - 1];
      ObserveValidity(After(prefix, nominal), last.cls, last.n, nominal);
      assert h[..|h|] == h;
      if i < |h| {
        NeverReferenced(prefix, i, nominal);
        assert prefix[..i] == h[..i];
        if i < |prefix| {
          assert prefix[..i + 1] == h[..i + 1];
        }
      } else {
        NeverReferenced(h, |h| - 1, nominal);
      }
    }
  }

  lemma UnreferencedState(h: seq<Observation>, nominal: u32)
    requires !After(h, nominal).refValid
    ensures After(h, nominal).okStreak == OkRun(h, nominal) % 0x1_0000
    ensures After(h, nominal).ppsValid <==> exists k :: ValidSince(h, k, nominal)
  {
    ValidIffEarned(h, nominal);
    NeverReferenced(h, |h|, nominal);
    assert h[..|h|] == h;
    forall k: nat ensures ValidFrom(h, k, nominal) == ValidSince(h, k, nominal) {
      SinceIsFrom(h, k, nominal);
    }
    hide After, Streak, OkRun, ValidFrom, ValidSince;
  }

  lemma SinceIsFrom(h: seq<Observation>, k: nat, nominal: u32)
    requires !After(h, nominal).refValid
    ensures ValidFrom(h, k, nominal) == ValidSince(h, k, nominal)
  {
    hide After, Streak, OkRun, Glitches, ReseedsAt;
    if k <= |h| {
      NeverReferenced(h, k, nominal);
      forall i: nat | i < |h| ensures Breaks(h, i, nominal) <==> h[i].cls == GAP {
        NeverReferenced(h, i, nominal);
      }
    }
  }

  /** The valid runs that lack a reference, of all runs since a reset: a streak of five with
      no gap and fewer than two remembered hard glitches ever since, and nowhere three
      consecutive near-nominal intervals that each joined the candidate. */
  lemma ValidUnreferencedRuns(h: seq<Observation>, nominal: u32)
    ensures After(h, nominal).ppsValid && !After(h, nominal).refValid <==>
            (exists k :: ValidSince(h, k, nominal)) && forall k :: !SeedsAt(h, k, nominal)
  {
    hide After, ValidSince, SeedsAt;
    ReferenceIffSeeded(h, nominal);
    if !After(h, nominal).refValid {
      UnreferencedState(h, nominal);
    }
  }

  // ---- tracking ----

  /** The reference after so many accepted intervals of the same length. */
  function Tracked(v: State, n: u32, k: nat): State {
    if k == 0 then v else Track(Tracked(v, n, k - 1), OK, n)
  }

  /** One accepted interval moves the reference by a 64th of its distance, rounded down. */
  lemma TrackMovesA64th(v: State, n: u32)
    requires v.refValid && AbsDiff(n, v.ref) < TWO31
    ensures var moved: int := Track(v, OK, n).ref - v.ref;
      64 * moved <= n - v.ref < 64 * moved + 64
  {
    SmallDifference(n, v.ref);
    hide AsInt32, AbsDiff;
    var moved: int := (n - v.ref) / 64;
    assert Wrap32(v.ref + moved) == v.ref + moved;
  }

  lemma SmallDifference(n: u32, ref: u32)
    requires AbsDiff(n, ref) < TWO31
    ensures AsInt32(n - ref) == n - ref
  {
  }

  lemma DistanceShrinks(ref: int, next: int, n: int)
    requires 64 * (next - ref) <= n - ref < 64 * (next - ref) + 64
    ensures n - 64 < ref <= n ==> next == ref
    ensures AbsDiff(n, next) <= AbsDiff(n, ref) && (ref <= n - 64 || ref > n ==> AbsDiff(n, next) < AbsDiff(n, ref))
    ensures ref <= n ==> next <= n
  {
  }

  /** A steady train of accepted intervals draws the reference to within 64 ticks below them,
      in at most as many samples as it was ticks away, and holds it there. */
  lemma {:induction false} ReferenceSettles(v: State, n: u32, k: nat)
    requires v.refValid && AbsDiff(n, v.ref) < TWO31
    ensures Tracked(v, n, k).refValid && AbsDiff(n, Tracked(v, n, k).ref) <= AbsDiff(n, v.ref)
    ensures n - 64 < Tracked(v, n, k).ref <= n || AbsDiff(n, Tracked(v, n, k).ref) + k <= AbsDiff(n, v.ref)
    ensures k >= AbsDiff(n, v.ref) ==> n - 64 < Tracked(v, n, k).ref <= n
  {
    if k > 0 {
      ReferenceSettles(v, n, k - 1);
      var before := Tracked(v, n, k - 1);
      TrackMovesA64th(before, n);
      DistanceShrinks(before.ref, Tracked(v, n, k).ref, n);
      hide Wrap32, AsInt32;
    }
  }
}
