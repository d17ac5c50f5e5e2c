/** Classifying one-second intervals and judging the pulse train (PpsValidator.h/.cpp). */
module PpsValidator {
  import opened Words
  import RingWindow

  datatype SampleClass = OK | GAP | DUP | HARD_GLITCH

  const W_RATE := 60
  const HARD_TICKS := 20000
  const VALID_RUN := 5
  const SEEDS_REQUIRED := 3
  const STARTUP_CONSISTENCY := 1
  const RECOVERY_CONSISTENCY := 10

  function MinOkTicks(ref: u32): u32 { ref * 7 / 10 }

  /** `(uint32_t)(ref * 13 / 10)` */
  function MaxOkTicks(ref: u32): u32 { Wrap32(ref * 13 / 10) }

  predicate IsDupTicks(n: u32, ref: u32) { n * 10 < ref * 3 }

  predicate IsGapTicks(n: u32, ref: u32) { n * 10 > ref * 17 }

  predicate InOkBand(n: u32, ref: u32) { ref * 7 <= n * 10 <= ref * 13 }

  predicate MutuallyConsistent(n: u32, candidate: u32, num100: nat) {
    candidate == 0 || AbsDiff(n, candidate) <= candidate * num100 / 100
  }

  /** `recent` is the class ring, oldest first. */
  datatype State = State(
    ppsValid: bool,
    refValid: bool,
    ref: u32,
    okStreak: u16,
    seedCount: nat,
    seedCandidate: u32,
    recoveryCount: nat,
    recoveryCandidate: u32,
    recoveryReseeds: u16,
    recent: seq<SampleClass>)

  const RESET := State(false, false, 0, 0, 0, 0, 0, 0, 0, [])

  function Classify(v: State, n: u32, nominal: u32): SampleClass {
    if !v.refValid then
      if InOkBand(n, nominal) then OK else HARD_GLITCH
    else if IsDupTicks(n, v.ref) then DUP
    else if IsGapTicks(n, v.ref) then GAP
    else if AbsDiff(n, v.ref) > HARD_TICKS then HARD_GLITCH
    else if InOkBand(n, v.ref) then OK
    else HARD_GLITCH
  }

  /** The running mean of a candidate held `count` times and one more sample. */
  function Mean(candidate: u32, count: nat, n: u32): (m: u32)
    ensures Min(candidate, n) <= m <= Max(candidate, n)
  {
    MeanBetween(candidate, count, n);
    (candidate * count + n) / (count + 1)
  }

  lemma MeanBetween(candidate: u32, count: nat, n: u32)
    ensures Min(candidate, n) <= (candidate * count + n) / (count + 1) <= Max(candidate, n)
  {
    var lo, hi, total := Min(candidate, n), Max(candidate, n), candidate * count + n;
    assert lo * count <= candidate * count <= hi * count;
    assert lo * (count + 1) <= total <= hi * (count + 1);
    QuotientBetween(lo, hi, total, count + 1);
  }

  lemma QuotientBetween(lo: nat, hi: nat, total: nat, d: nat)
    requires d > 0 && lo * d <= total <= hi * d
    ensures lo <= total / d <= hi
  {
    var q := total / d;
    assert total == d * q + total % d;
    Cancel(lo, q + 1, d);
    Cancel(q, hi + 1, d);
  }

  lemma Cancel(a: int, b: int, d: nat)
    requires d > 0
    ensures d * (b - a) > 0 ==> a < b
    ensures d * (b - a) == b * d - a * d == d * b - d * a
  {
    if a >= b {
      Negative(b - a, d);
    }
  }

  lemma Negative(x: int, d: nat)
    requires x <= 0
    ensures d * x <= 0
  {
  }

  /** The seeding of the first reference from three consistent near-nominal intervals. */
  function Seed(v: State, n: u32, nominal: u32): State {
    if v.refValid then v
    else if !InOkBand(n, nominal) then
      if v.seedCount != 0 then v.(seedCount := 0, seedCandidate := 0, okStreak := 0) else v.(okStreak := 0)
    else
      var joins := v.seedCount != 0 && MutuallyConsistent(n, v.seedCandidate, STARTUP_CONSISTENCY);
      var candidate := if joins then Mean(v.seedCandidate, v.seedCount, n) else n;
      var count := if joins then v.seedCount + 1 else 1;
      var seeded := v.(seedCandidate := candidate, seedCount := count);
      if count >= SEEDS_REQUIRED then
        seeded.(ref := candidate, refValid := true, recoveryCount := 0, recoveryCandidate := 0)
      else seeded
  }

  /** Streaks, and the slow tracking of the reference by accepted intervals. */
  function Track(v: State, cls: SampleClass, n: u32): State {
    if cls == OK then
      var counted := v.(okStreak := (v.okStreak + 1) % 0x1_0000);
      if v.refValid then counted.(ref := Wrap32(v.ref + AsInt32(n - v.ref) / 64)) else counted
    else v.(okStreak := 0, ppsValid := v.ppsValid && cls != GAP)
  }

  predicate RecoveryApplies(v: State, n: u32, nominal: u32) {
    v.refValid && v.ref != 0 && InOkBand(n, nominal) && v.ref > nominal + nominal / 2
  }

  /** Replacing a reference that has run away upward. */
  function Recover(v: State, n: u32, nominal: u32): State {
    if !RecoveryApplies(v, n, nominal) then v.(recoveryCount := 0, recoveryCandidate := 0)
    else
      var joins := v.recoveryCount != 0 && MutuallyConsistent(n, v.recoveryCandidate, RECOVERY_CONSISTENCY);
      var candidate := if joins then Mean(v.recoveryCandidate, v.recoveryCount, n) else n;
      var count := if joins then v.recoveryCount + 1 else 1;
      if count >= SEEDS_REQUIRED then
        v.(ref := candidate, refValid := true, recoveryReseeds := (v.recoveryReseeds + 1) % 0x1_0000,
           recoveryCount := 0, recoveryCandidate := 0, okStreak := 0, ppsValid := false)
      else v.(recoveryCandidate := candidate, recoveryCount := count)
  }

  /** Within a tick of a third of the sum, below it. */
  predicate IsAverage(m: u32, a: u32, b: u32, c: u32) {
    3 * m <= a + b + c <= 3 * m + 3
  }

  lemma MeanOfThree(a: u32, b: u32, c: u32)
    ensures IsAverage(Mean(Mean(a, 1, b), 2, c), a, b, c)
  {
    assert Mean(a, 1, b) == (a + b) / 2;
    assert Mean(Mean(a, 1, b), 2, c) == (2 * Mean(a, 1, b) + c) / 3;
    hide Mean;
  }

  /** Three near-nominal intervals, each consistent with the mean of those before it. */
  predicate Agreeing(a: u32, b: u32, c: u32, tolerance: nat, nominal: u32) {
    && InOkBand(a, nominal) && InOkBand(b, nominal) && InOkBand(c, nominal)
    && MutuallyConsistent(b, a, tolerance) && MutuallyConsistent(c, Mean(a, 1, b), tolerance)
  }

  /** Three agreeing intervals seed the reference with their average. */
  lemma ThreeSeed(v: State, a: u32, b: u32, c: u32, nominal: u32)
    requires !v.refValid && v.seedCount == 0 && Agreeing(a, b, c, STARTUP_CONSISTENCY, nominal)
    ensures var w := Seed(Seed(Seed(v, a, nominal), b, nominal), c, nominal);
      w.refValid && IsAverage(w.ref, a, b, c)
  {
    MeanOfThree(a, b, c);
    hide InOkBand, MutuallyConsistent, Mean, IsAverage;
  }

  /** Three agreeing intervals, and none but three, replace a reference more than half the
      nominal clock too large by their average, and take validity back. */
  lemma ThreeRecover(v: State, a: u32, b: u32, c: u32, nominal: u32)
    requires v.refValid && v.recoveryCount == 0 && v.ref > nominal + nominal / 2
    requires Agreeing(a, b, c, RECOVERY_CONSISTENCY, nominal)
    ensures var x, y := Recover(v, a, nominal), Recover(Recover(v, a, nominal), b, nominal);
      var w := Recover(y, c, nominal);
      && x.ref == y.ref == v.ref && x.ppsValid == y.ppsValid == v.ppsValid
      && w.refValid && IsAverage(w.ref, a, b, c) && !w.ppsValid && w.okStreak == 0
  {
    MeanOfThree(a, b, c);
    hide InOkBand, MutuallyConsistent, Mean, IsAverage;
  }

  function CountOf(s: seq<SampleClass>, cls: SampleClass): nat {
    if |s| == 0 then 0 else CountOf(s[..|s| - 1], cls) + (if s[|s| - 1] == cls then 1 else 0)
  }

  function Judge(v: State): State {
    v.(ppsValid := (v.ppsValid || v.okStreak >= VALID_RUN) && CountOf(v.recent, HARD_GLITCH) < 2)
  }

  function Observe(v: State, cls: SampleClass, n: u32, nominal: u32): State {
    var pushed := v.(recent := RingWindow.Last(v.recent + [cls], W_RATE));
    Judge(Recover(Track(Seed(pushed, n, nominal), cls, n), n, nominal))
  }

  datatype Health = Health(ok: u8, gap: u8, dup: u8, hg: u8)

  class Validator {
    const nominal: u32
    var ppsValid: bool
    var refValid: bool
    var ref: u32
    var okStreak: u16
    var seedCount: nat
    var seedCandidate: u32
    var recoveryCount: nat
    var recoveryCandidate: u32
    var recoveryReseeds: u16
    const ring: array<SampleClass>
    var ringHead: nat
    var ringFill: nat

    ghost predicate Valid()
      reads this`ringHead, this`ringFill, ring
    {
      ring.Length == W_RATE && RingWindow.WellFormed(ring[..], ringHead, ringFill)
    }

    /** The class ring, oldest first. */
    ghost function Recent(): seq<SampleClass>
      requires Valid()
      reads this`ringHead, this`ringFill, ring
    {
      RingWindow.Window(ring[..], ringHead, ringFill)
    }

    ghost function View(): State
      requires Valid()
      reads this, ring
    {
      State(ppsValid, refValid, ref, okStreak, seedCount, seedCandidate, recoveryCount, recoveryCandidate,
            recoveryReseeds, Recent())
    }

    constructor (nominal: u32)
      ensures Valid() && View() == RESET && this.nominal == nominal && fresh(ring)
    {
      this.nominal := nominal;
      ring := new SampleClass[W_RATE](i => OK);
      ppsValid, refValid, ref, okStreak := false, false, 0, 0;
      seedCount, seedCandidate := 0, 0;
      recoveryCount, recoveryCandidate, recoveryReseeds := 0, 0, 0;
      ringHead, ringFill := 0, 0;
    }

    method ClearRing()
      requires Valid()
      modifies this`ringHead, this`ringFill
      ensures Valid() && Recent() == []
    {
      ringHead, ringFill := 0, 0;
    }

    method Reset()
      requires Valid()
      modifies this
      ensures Valid() && View() == RESET
    {
      ClearRing();
      hide Valid, Recent;
      ppsValid, refValid, ref, okStreak := false, false, 0, 0;
      seedCount, seedCandidate := 0, 0;
      recoveryCount, recoveryCandidate, recoveryReseeds := 0, 0, 0;
    }

    method GetHealth() returns (h: Health)
      requires Valid()
      ensures h.ok == CountOf(View().recent, OK) && h.gap == CountOf(View().recent, GAP)
      ensures h.dup == CountOf(View().recent, DUP) && h.hg == CountOf(View().recent, HARD_GLITCH)
    {
      hide RingWindow.Window;
      var ok, gap, dup, hg := 0, 0, 0, 0;
      var i := 0;
      while i < ringFill
        invariant 0 <= i <= ringFill && 0 <= ok <= i && 0 <= gap <= i && 0 <= dup <= i && 0 <= hg <= i
        invariant ok == CountOf(ring[..i], OK) && gap == CountOf(ring[..i], GAP)
        invariant dup == CountOf(ring[..i], DUP) && hg == CountOf(ring[..i], HARD_GLITCH)
      {
        assert ring[..i + 1][..i] == ring[..i];
        match ring[i] {
          case OK => ok := ok + 1;
          case GAP => gap := gap + 1;
          case DUP => dup := dup + 1;
          case HARD_GLITCH => hg := hg + 1;
        }
        i := i + 1;
      }
      assert ring[..][..ringFill] == ring[..ringFill];
      RingWindow.WindowIsPermutation(ring[..], ringHead, ringFill);
      CountsOfPermutation(ring[..ringFill], View().recent);
      h := Health(ok, gap, dup, hg);
    }

    method SeedStep(n: u32, near1x: bool)
      requires Valid() && near1x == InOkBand(n, nominal)
      modifies this`refValid, this`ref, this`okStreak, this`seedCount, this`seedCandidate, this`recoveryCount,
               this`recoveryCandidate
      ensures Valid() && View() == Seed(old(View()), n, nominal)
    {
      hide Valid, Recent, InOkBand, MutuallyConsistent, Mean;
      if !refValid {
        if near1x {
          if seedCount == 0 {
            seedCandidate, seedCount := n, 1;
          } else if MutuallyConsistent(n, seedCandidate, STARTUP_CONSISTENCY) {
            seedCandidate := Mean(seedCandidate, seedCount, n);
            seedCount := seedCount + 1;
          } else {
            seedCandidate, seedCount := n, 1;
          }
          if seedCount >= SEEDS_REQUIRED {
            ref, refValid := seedCandidate, true;
            ForgetRecovery();
          }
        } else {
          if seedCount != 0 {
            seedCount, seedCandidate := 0, 0;
          }
          okStreak := 0;
        }
      }
    }

    method TrackStep(cls: SampleClass, n: u32)
      requires Valid()
      modifies this`ref, this`okStreak, this`ppsValid
      ensures Valid() && View() == Track(old(View()), cls, n)
    {
      hide Valid, Recent, Wrap32, AsInt32;
      if cls == OK {
        okStreak := (okStreak + 1) % 0x1_0000;
        if refValid {
          var err := AsInt32(n - ref);
          ref := Wrap32(ref + err / 64);
        }
      } else {
        okStreak := 0;
        if cls == GAP {
          ppsValid := false;
        }
      }
    }

    method JoinRecovery(n: u32)
      requires Valid()
      modifies this`recoveryCount, this`recoveryCandidate
      ensures Valid()
      ensures var joins :=
          old(recoveryCount) != 0 && MutuallyConsistent(n, old(recoveryCandidate), RECOVERY_CONSISTENCY);
        View() == old(View()).(
          recoveryCandidate := if joins then Mean(old(recoveryCandidate), old(recoveryCount), n) else n,
          recoveryCount := if joins then old(recoveryCount) + 1 else 1)
    {
      hide Valid, Recent, MutuallyConsistent, Mean;
      if recoveryCount == 0 {
        recoveryCandidate, recoveryCount := n, 1;
      } else if MutuallyConsistent(n, recoveryCandidate, RECOVERY_CONSISTENCY) {
        recoveryCandidate := Mean(recoveryCandidate, recoveryCount, n);
        recoveryCount := recoveryCount + 1;
      } else {
        recoveryCandidate, recoveryCount := n, 1;
      }
    }

    method ForgetRecovery()
      requires Valid()
      modifies this`recoveryCount, this`recoveryCandidate
      ensures Valid() && View() == old(View()).(recoveryCount := 0, recoveryCandidate := 0)
    {
      hide Valid, Recent;
      recoveryCount, recoveryCandidate := 0, 0;
    }

    method AdoptRecovery()
      requires Valid()
      modifies this`refValid, this`ref, this`recoveryReseeds
      ensures Valid()
      ensures View() == old(View()).(ref := recoveryCandidate, refValid := true,
                                     recoveryReseeds := (old(recoveryReseeds) + 1) % 0x1_0000)
    {
      hide Valid, Recent;
      ref, refValid := recoveryCandidate, true;
      recoveryReseeds := (recoveryReseeds + 1) % 0x1_0000;
    }

    method RecoverStep(n: u32, near1x: bool)
      requires Valid() && near1x == InOkBand(n, nominal)
      modifies this`refValid, this`ref, this`okStreak, this`ppsValid, this`recoveryCount, this`recoveryCandidate,
               this`recoveryReseeds
      ensures Valid() && View() == Recover(old(View()), n, nominal)
    {
      hide Valid, Recent, InOkBand, MutuallyConsistent, Mean;
      if refValid && ref != 0 && near1x && ref > nominal + nominal / 2 {
        JoinRecovery(n);
        if recoveryCount >= SEEDS_REQUIRED {
          AdoptRecovery();
          ForgetRecovery();
          okStreak := 0;
          ppsValid := false;
        }
      } else {
        ForgetRecovery();
      }
    }

    method PushClass(cls: SampleClass)
      requires Valid()
      modifies this`ringHead, this`ringFill, ring
      ensures Valid()
      ensures View() == old(View()).(recent := RingWindow.Last(old(View()).recent + [cls], W_RATE))
    {
      hide RingWindow.Window, RingWindow.Last;
      RingWindow.PushKeepsLatest(ring[..], ringHead, ringFill, cls);
      ghost var before := ring[..];
      ring[ringHead] := cls;
      assert ring[..] == before[ringHead := cls];
      ringHead := (ringHead + 1) % W_RATE;
      if ringFill < W_RATE {
        ringFill := ringFill + 1;
      }
    }

    method ObserveSample(cls: SampleClass, n: u32)
      requires Valid()
      modifies this, ring
      ensures Valid() && View() == Observe(old(View()), cls, n, nominal)
    {
      hide Seed, Track, Recover, RingWindow.Window, RingWindow.Last;
      PushClass(cls);
      var near1x := InOkBand(n, nominal);
      SeedStep(n, near1x);
      TrackStep(cls, n);
      RecoverStep(n, near1x);
      if okStreak >= VALID_RUN {
        ppsValid := true;
      }
      var h := GetHealth();
      if h.hg >= 2 {
        ppsValid := false;
      }
    }

    function ClassifyInterval(n: u32): SampleClass
      requires Valid()
      reads this, ring
      ensures ClassifyInterval(n) == Classify(View(), n, nominal)
    {
      if !refValid then
        if InOkBand(n, nominal) then OK else HARD_GLITCH
      else if IsDupTicks(n, ref) then DUP
      else if IsGapTicks(n, ref) then GAP
      else if AbsDiff(n, ref) > HARD_TICKS then HARD_GLITCH
      else if InOkBand(n, ref) then OK
      else HARD_GLITCH
    }
  }

  lemma {:induction false} CountIsMultiplicity(s: seq<SampleClass>, c: SampleClass)
    ensures CountOf(s, c) == multiset(s)[c]
  {
    if |s| > 0 {
      CountIsMultiplicity(s[..|s| - 1], c);
      assert s == s[..|s| - 1] + [s[|s| - 1]];
    }
  }

  lemma CountsOfPermutation(s: seq<SampleClass>, t: seq<SampleClass>)
    requires multiset(s) == multiset(t)
    ensures CountOf(s, OK) == CountOf(t, OK) && CountOf(s, GAP) == CountOf(t, GAP)
    ensures CountOf(s, DUP) == CountOf(t, DUP) && CountOf(s, HARD_GLITCH) == CountOf(t, HARD_GLITCH)
  {
    CountIsMultiplicity(s, OK);
    CountIsMultiplicity(t, OK);
    CountIsMultiplicity(s, GAP);
    CountIsMultiplicity(t, GAP);
    CountIsMultiplicity(s, DUP);
    CountIsMultiplicity(t, DUP);
    CountIsMultiplicity(s, HARD_GLITCH);
    CountIsMultiplicity(t, HARD_GLITCH);
  }
}
