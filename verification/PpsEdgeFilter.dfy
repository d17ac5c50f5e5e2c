/** Separating expected one-second edges from early extras and late ones (PpsEdgeFilter.h). */
module PpsEdgeFilter {
  import opened Words
  import opened PpsValidator

  datatype Sample = Sample(interval: u32, cls: SampleClass, earlyExtra: bool)

  function Earliest(v: State, nominal: u32): u32 {
    if v.ref != 0 then Sub32(v.ref, HARD_TICKS) else MinOkTicks(nominal)
  }

  function Latest(v: State, nominal: u32): u32 {
    if v.ref != 0 then Wrap32(v.ref + HARD_TICKS) else MaxOkTicks(nominal)
  }

  predicate IsEarly(v: State, n: u32, nominal: u32) { n < Earliest(v, nominal) }

  predicate IsAccepted(v: State, n: u32, nominal: u32) { Classify(v, n, nominal) == OK }

  predicate IsLate(v: State, n: u32, nominal: u32) { n > Latest(v, nominal) }

  function FilterEdge(candidate: u32, v: State, edge: u32, nominal: u32): Sample {
    var n := Sub32(edge, candidate);
    Sample(n, Classify(v, n, nominal), IsEarly(v, n, nominal))
  }

  function NextCandidate(candidate: u32, v: State, edge: u32, nominal: u32): u32 {
    var n := Sub32(edge, candidate);
    if IsAccepted(v, n, nominal) || IsLate(v, n, nominal) then edge else candidate
  }

  class EdgeFilter {
    var candidate: u32

    constructor ()
      ensures candidate == 0
    {
      candidate := 0;
    }

    method Prime(edge: u32)
      modifies this
      ensures candidate == edge
    {
      candidate := edge;
    }

    method Observe(edge: u32, validator: Validator) returns (s: Sample)
      requires validator.Valid()
      modifies this
      ensures s == FilterEdge(old(candidate), validator.View(), edge, validator.nominal)
      ensures candidate == NextCandidate(old(candidate), validator.View(), edge, validator.nominal)
    {
      var n := Sub32(edge, candidate);
      var cls := validator.ClassifyInterval(n);
      var ref := validator.ref;
      var earliest := if ref != 0 then Sub32(ref, HARD_TICKS) else MinOkTicks(validator.nominal);
      var latest := if ref != 0 then Wrap32(ref + HARD_TICKS) else MaxOkTicks(validator.nominal);
      s := Sample(n, cls, n < earliest);
      if cls == OK || n > latest {
        candidate := edge;
      }
    }
  }

  /** A reference is in use exactly when it is not zero. */
  predicate Coherent(v: State) {
    v.refValid <==> v.ref != 0
  }

  predicate ExactlyOneKind(v: State, n: u32, nominal: u32) {
    && (IsEarly(v, n, nominal) || IsAccepted(v, n, nominal) || IsLate(v, n, nominal))
    && !(IsEarly(v, n, nominal) && IsAccepted(v, n, nominal))
    && !(IsAccepted(v, n, nominal) && IsLate(v, n, nominal))
    && !(IsEarly(v, n, nominal) && IsLate(v, n, nominal))
  }

  /** The references for which the three kinds partition the intervals. */
  predicate Partitions(v: State, nominal: u32) {
    if v.ref != 0 then 66667 <= v.ref < TWO32 - HARD_TICKS
    else nominal * 7 % 10 == 0 && nominal * 13 / 10 < TWO32
  }

  lemma KindsOfInterval(v: State, n: u32, nominal: u32)
    requires Coherent(v) && Partitions(v, nominal)
    ensures ExactlyOneKind(v, n, nominal)
  {
    hide ExactlyOneKind, Partitions, Coherent;
    if v.ref == 0 {
      KindsUnseeded(v, n, nominal);
    } else {
      KindsSeeded(v, n, nominal);
    }
  }

  lemma KindsUnseeded(v: State, n: u32, nominal: u32)
    requires Coherent(v) && v.ref == 0 && Partitions(v, nominal)
    ensures ExactlyOneKind(v, n, nominal)
  {
    var lo, hi := nominal * 7 / 10, nominal * 13 / 10;
    assert nominal * 7 == 10 * lo && 10 * hi <= nominal * 13 < 10 * hi + 10;
    BandsUnseeded(v, n, nominal, lo, hi);
    hide Classify, IsEarly, IsLate;
  }

  lemma BandsUnseeded(v: State, n: u32, nominal: u32, lo: nat, hi: nat)
    requires Coherent(v) && v.ref == 0 && nominal * 7 == 10 * lo && 10 * hi <= nominal * 13 < 10 * hi + 10 && hi < TWO32
    ensures IsEarly(v, n, nominal) <==> n < lo
    ensures IsAccepted(v, n, nominal) <==> lo <= n <= hi
    ensures IsLate(v, n, nominal) <==> n > hi
  {
  }

  lemma KindsSeeded(v: State, n: u32, nominal: u32)
    requires Coherent(v) && v.ref != 0 && Partitions(v, nominal)
    ensures ExactlyOneKind(v, n, nominal)
  {
  }

  /** The interval just below the accepted band is of no kind. */
  lemma MissedUnseeded(v: State, n: u32, nominal: u32)
    requires Coherent(v) && v.ref == 0 && nominal * 7 % 10 != 0 && nominal * 13 / 10 < TWO32 && n == nominal * 7 / 10
    ensures !IsEarly(v, n, nominal) && !IsAccepted(v, n, nominal) && !IsLate(v, n, nominal)
  {
    assert 10 * n < nominal * 7 < 10 * n + 10;
    hide IsDupTicks, IsGapTicks;
  }

  /** The latest bound wraps, and the nominal interval is accepted and late. */
  lemma TwiceUnseeded(v: State, nominal: u32)
    requires Coherent(v) && v.ref == 0 && nominal * 13 / 10 >= TWO32
    ensures IsAccepted(v, nominal, nominal) && IsLate(v, nominal, nominal)
  {
    hide IsDupTicks, IsGapTicks;
  }

  lemma MissedSeeded(v: State, n: u32, nominal: u32)
    requires Coherent(v) && HARD_TICKS <= v.ref < 66667 && n == v.ref - HARD_TICKS
    ensures !IsEarly(v, n, nominal) && !IsAccepted(v, n, nominal) && !IsLate(v, n, nominal)
  {
  }

  lemma TwiceSeeded(v: State, nominal: u32)
    requires Coherent(v) && v.ref != 0 && (v.ref < HARD_TICKS || v.ref >= TWO32 - HARD_TICKS)
    ensures IsAccepted(v, v.ref, nominal) && (IsEarly(v, v.ref, nominal) || IsLate(v, v.ref, nominal))
  {
  }

  lemma KindsOverlapOrMiss(v: State, nominal: u32) returns (n: u32)
    requires Coherent(v) && !Partitions(v, nominal)
    ensures !ExactlyOneKind(v, n, nominal)
  {
    hide IsEarly, IsAccepted, IsLate, Coherent;
    if v.ref == 0 && nominal * 13 / 10 < TWO32 {
      n := nominal * 7 / 10;
      MissedUnseeded(v, n, nominal);
    } else if v.ref == 0 {
      n := nominal;
      TwiceUnseeded(v, nominal);
    } else if HARD_TICKS <= v.ref < 66667 {
      n := v.ref - HARD_TICKS;
      MissedSeeded(v, n, nominal);
    } else {
      n := v.ref;
      TwiceSeeded(v, nominal);
    }
  }

  /** Early, accepted and late are a partition of all intervals exactly for these references:
      for every other there is an interval of none, or of two, of the kinds. */
  lemma KindsPartition(v: State, nominal: u32)
    requires Coherent(v)
    ensures Partitions(v, nominal) <==> forall n: u32 :: ExactlyOneKind(v, n, nominal)
  {
    hide ExactlyOneKind, Partitions;
    if Partitions(v, nominal) {
      forall n: u32 ensures ExactlyOneKind(v, n, nominal) {
        KindsOfInterval(v, n, nominal);
      }
    } else {
      var n := KindsOverlapOrMiss(v, nominal);
      assert !ExactlyOneKind(v, n, nominal);
    }
  }

  predicate Undisturbed(v: State, nominal: u32) {
    if v.ref != 0 then HARD_TICKS <= v.ref < TWO32 - HARD_TICKS else nominal * 13 / 10 < TWO32
  }

  lemma EarlyStaysOut(v: State, n: u32, nominal: u32)
    requires Coherent(v) && Undisturbed(v, nominal) && IsEarly(v, n, nominal)
    ensures !IsAccepted(v, n, nominal) && !IsLate(v, n, nominal)
  {
    if v.ref == 0 {
      hide IsDupTicks, IsGapTicks;
      assert nominal * 7 / 10 * 10 <= nominal * 7;
    } else {
      hide InOkBand, IsDupTicks, IsGapTicks;
    }
  }

  lemma EarlyStrays(v: State, nominal: u32) returns (n: u32)
    requires Coherent(v) && !Undisturbed(v, nominal)
    ensures IsEarly(v, n, nominal) && (IsAccepted(v, n, nominal) || IsLate(v, n, nominal))
  {
    if v.ref == 0 {
      hide Classify;
      n := nominal * 7 / 10 - 1;
    } else if v.ref < HARD_TICKS {
      n := v.ref;
    } else {
      hide Classify;
      n := v.ref - HARD_TICKS - 1;
    }
  }

  /** No early extra can move the filter's candidate, whatever its interval, exactly for
      these references. */
  lemma EarlyExtrasLeaveTheCandidate(v: State, nominal: u32)
    requires Coherent(v)
    ensures Undisturbed(v, nominal) <==>
      forall n: u32 :: IsEarly(v, n, nominal) ==> !IsAccepted(v, n, nominal) && !IsLate(v, n, nominal)
  {
    hide Undisturbed, IsEarly, IsAccepted, IsLate, Coherent;
    if Undisturbed(v, nominal) {
      forall n: u32 | IsEarly(v, n, nominal)
        ensures !IsAccepted(v, n, nominal) && !IsLate(v, n, nominal)
      {
        EarlyStaysOut(v, n, nominal);
      }
    } else {
      var n := EarlyStrays(v, nominal);
    }
  }

  /** A duplicate pulse is always filtered out as an early extra exactly for these references. */
  lemma DuplicatesAreEarly(v: State, nominal: u32)
    requires v.refValid && v.ref != 0
    ensures v.ref < HARD_TICKS || v.ref >= 28572 <==>
      forall n: u32 :: Classify(v, n, nominal) == DUP ==> IsEarly(v, n, nominal)
  {
    if HARD_TICKS <= v.ref < 28572 {
      var n: u32 := v.ref - HARD_TICKS;
      assert Classify(v, n, nominal) == DUP && !IsEarly(v, n, nominal);
    }
  }
}
