/** The Q16 exponential average of FreqDiscipliner.cpp, and how it settles. */
module Ewma {
  import opened Words

  /** Distance of the Q16 state from a sample. */
  function Error(q: nat, n: nat): nat {
    AbsDiff(n * TWO16, q)
  }

  /** `x >> s` */
  function ShiftRight(x: nat, s: nat): (y: nat)
    ensures y <= x
    decreases s
  {
    if s == 0 then x else ShiftRight(x / 2, s - 1)
  }

  /** One update: the magnitude of the error, shifted down, is added or subtracted. */
  function Step(q: nat, n: nat, shift: nat): nat {
    var step := ShiftRight(Error(q, n), shift);
    if n * TWO16 < q then q - step else q + step
  }

  /** The frequency the state denotes, to the nearest tick. */
  function Output(q: nat): nat {
    (q + 0x8000) / TWO16
  }

  function Iterate(q: nat, n: nat, shift: nat, k: nat): nat {
    if k == 0 then q else Step(Iterate(q, n, shift, k - 1), n, shift)
  }

  lemma {:induction false} ShiftRightMonotone(x: nat, y: nat, s: nat)
    requires x <= y
    ensures ShiftRight(x, s) <= ShiftRight(y, s)
    decreases s
  {
    if s > 0 {
      ShiftRightMonotone(x / 2, y / 2, s - 1);
    }
  }

  lemma {:induction false} ShiftRightIsQuotient(x: nat, s: nat)
    ensures ShiftRight(x, s) * Pow2(s) <= x < ShiftRight(x, s) * Pow2(s) + Pow2(s)
    decreases s
  {
    if s > 0 {
      ShiftRightIsQuotient(x / 2, s - 1);
      DoubleProduct(ShiftRight(x / 2, s - 1), Pow2(s - 1));
    }
  }

  lemma DoubleProduct(y: nat, p: nat)
    ensures y * (2 * p) == 2 * (y * p)
  {
  }

  lemma {:induction false} ShiftRightZero(x: nat, s: nat)
    ensures ShiftRight(x, s) == 0 <==> x < Pow2(s)
    decreases s
  {
    if s > 0 {
      ShiftRightZero(x / 2, s - 1);
    }
  }

  /** A 64-bit state: no sum or difference leaves the range of the int64_t intermediates. */
  predicate InRange(q: nat) {
    q <= 0xFFFF_FFFF * TWO16
  }

  method UpdateFrequency(q: nat, sample: u32, shift: nat) returns (q': nat, f: u32)
    requires InRange(q)
    ensures q' == Step(q, sample, shift) && f == Output(q') && InRange(q')
  {
    StepBetween(q, sample, shift);
    var target := sample * TWO16;
    var error := target - q;
    var step := ShiftRight(if error < 0 then -error else error, shift);
    q' := if error < 0 then q - step else q + step;
    f := (q' + 0x8000) / TWO16;
  }

  /** Each update moves toward the sample and never past it. */
  lemma StepBetween(q: nat, n: nat, shift: nat)
    ensures Min(q, n * TWO16) <= Step(q, n, shift) <= Max(q, n * TWO16)
    ensures Error(Step(q, n, shift), n) == Error(q, n) - ShiftRight(Error(q, n), shift)
  {
  }

  /** Samples within bounds keep the state and the output within the same bounds. */
  lemma StepInHull(q: nat, n: nat, shift: nat, lo: nat, hi: nat)
    requires lo <= n <= hi && lo * TWO16 <= q <= hi * TWO16
    ensures lo * TWO16 <= Step(q, n, shift) <= hi * TWO16
    ensures lo <= Output(Step(q, n, shift)) <= hi
  {
    StepBetween(q, n, shift);
  }

  lemma SmallErrorIsExact(q: nat, n: nat)
    requires Error(q, n) < 0x8000
    ensures Output(q) == n
  {
  }

  lemma Pow2Bounds(s: nat)
    requires s <= 15
    ensures Pow2(s) <= 0x8000 && Pow2(s + 1) == 2 * Pow2(s)
    ensures s == 15 ==> Pow2(s) == 0x8000
  {
    assert Pow2(15) == 0x8000 by {
      assert Pow2(3) == 8;
      assert Pow2(6) == 64;
      assert Pow2(9) == 512;
      assert Pow2(12) == 4096;
    }
    Pow2Monotone(s, 15);
  }

  lemma {:induction false} Pow2Monotone(s: nat, t: nat)
    requires s <= t
    ensures Pow2(s) <= Pow2(t)
    decreases t
  {
    if s < t {
      Pow2Monotone(s, t - 1);
    }
  }

  /** While the error is at least 2^shift it strictly shrinks. */
  lemma LargeErrorShrinks(q: nat, n: nat, shift: nat)
    requires Error(q, n) >= Pow2(shift)
    ensures Error(Step(q, n, shift), n) < Error(q, n)
  {
    StepBetween(q, n, shift);
    ShiftRightZero(Error(q, n), shift);
  }

  lemma SettledStep(q: nat, n: nat, shift: nat)
    requires Error(q, n) < Pow2(shift)
    ensures Step(q, n, shift) == q
  {
    ShiftRightZero(Error(q, n), shift);
  }

  /** Once below 2^shift the state is frozen and the output exact, for good. */
  lemma {:induction false} SettledForever(q: nat, n: nat, shift: nat, k: nat)
    requires shift <= 15 && Error(q, n) < Pow2(shift)
    ensures Iterate(q, n, shift, k) == q && Output(q) == n
  {
    Pow2Bounds(shift);
    SmallErrorIsExact(q, n);
    hide Error, Step, Pow2, Output;
    if k > 0 {
      SettledForever(q, n, shift, k - 1);
      SettledStep(q, n, shift);
    }
  }

  lemma {:induction false} IterateAdds(q: nat, n: nat, shift: nat, j: nat, k: nat)
    ensures Iterate(q, n, shift, j + k) == Iterate(Iterate(q, n, shift, j), n, shift, k)
  {
    if k > 0 {
      IterateAdds(q, n, shift, j, k - 1);
    }
  }

  lemma {:induction false} ErrorNeverGrows(q: nat, n: nat, shift: nat, k: nat)
    ensures Error(Iterate(q, n, shift, k), n) <= Error(q, n)
  {
    if k > 0 {
      ErrorNeverGrows(q, n, shift, k - 1);
      StepBetween(Iterate(q, n, shift, k - 1), n, shift);
    }
  }

  /** As long as the error stays at or above `floor`, every update removes floor >> shift. */
  lemma {:induction false} SteadyProgress(q: nat, n: nat, shift: nat, floor: nat, k: nat)
    requires Error(Iterate(q, n, shift, k), n) >= floor
    ensures Error(Iterate(q, n, shift, k), n) + k * ShiftRight(floor, shift) <= Error(q, n)
  {
    if k > 0 {
      var prev := Iterate(q, n, shift, k - 1);
      StepBetween(prev, n, shift);
      SteadyProgress(q, n, shift, floor, k - 1);
      ShiftRightMonotone(floor, Error(prev, n), shift);
      assert k * ShiftRight(floor, shift) == (k - 1) * ShiftRight(floor, shift) + ShiftRight(floor, shift);
    }
  }

  /** The error halves at least every 2^(shift+1) samples while it is that large. */
  lemma HalvesIn(q: nat, n: nat, shift: nat)
    requires Error(q, n) >= Pow2(shift + 1)
    ensures 2 * Error(Iterate(q, n, shift, Pow2(shift + 1)), n) <= Error(q, n)
  {
    hide Error, Iterate;
    var k, p := Pow2(shift + 1), Pow2(shift);
    var e, e' := Error(q, n), Error(Iterate(q, n, shift, k), n);
    var half := (e + 1) / 2;
    if 2 * e' > e {
      SteadyProgress(q, n, shift, half, k);
    }
    var m := ShiftRight(half, shift);
    ShiftRightIsQuotient(half, shift);
    ShiftRightZero(half, shift);
    ProductAtLeast(m, p);
    DoubleProduct(m, p);
    Commutes(k, m);
  }

  lemma Commutes(a: nat, b: nat)
    ensures a * b == b * a
  {
  }

  lemma ProductAtLeast(m: nat, p: nat)
    requires m >= 1
    ensures m * p >= p
  {
    assert m * p == (m - 1) * p + p;
  }

  /** Samples after which any state has settled on a constant input. */
  function SettlingTime(shift: nat): nat
    requires shift <= 15
  {
    (47 - shift) * Pow2(shift + 1) + Pow2(shift)
  }

  lemma HalfFits(e: nat, e': nat, bound: nat, rounds: nat)
    requires rounds > 0 && 2 * e' <= e < bound * Pow2(rounds)
    ensures e' < bound * Pow2(rounds - 1)
  {
    DoubleProduct(bound, Pow2(rounds - 1));
  }

  lemma NoRounds(bound: nat, k: nat, rounds: nat)
    requires rounds == 0
    ensures bound * Pow2(rounds) == bound && rounds * k == 0
  {
  }

  /** Round after round of 2^(shift+1) samples, the error is halved or already small. */
  lemma {:induction false} AfterHalvings(q: nat, n: nat, shift: nat, rounds: nat, bound: nat)
    requires Error(q, n) < bound * Pow2(rounds)
    ensures var e := Error(Iterate(q, n, shift, rounds * Pow2(shift + 1)), n);
      e < Pow2(shift + 1) || e < bound
    decreases rounds
  {
    hide Error, Step, Pow2;
    var k := Pow2(shift + 1);
    if rounds == 0 {
      NoRounds(bound, k, rounds);
    } else {
      OneMore(rounds, k);
      if Error(q, n) >= k {
        hide Iterate;
        var next := Iterate(q, n, shift, k);
        HalvesIn(q, n, shift);
        HalfFits(Error(q, n), Error(next, n), bound, rounds);
        AfterHalvings(next, n, shift, rounds - 1, bound);
        IterateAdds(q, n, shift, k, (rounds - 1) * k);
      } else {
        ErrorNeverGrows(q, n, shift, rounds * k);
      }
    }
  }

  lemma OneMore(rounds: nat, k: nat)
    requires rounds > 0
    ensures rounds * k == k + (rounds - 1) * k
  {
  }

  lemma {:induction false} IterateFirst(q: nat, n: nat, shift: nat, k: nat)
    requires k > 0
    ensures Iterate(q, n, shift, k) == Iterate(Step(q, n, shift), n, shift, k - 1)
  {
    hide Step;
    if k > 1 {
      IterateFirst(q, n, shift, k - 1);
    } else {
      assert Iterate(q, n, shift, 0) == q;
    }
  }

  lemma ErrorStep(q: nat, n: nat, shift: nat)
    ensures Error(Step(q, n, shift), n) <= Error(q, n)
    ensures Error(q, n) >= Pow2(shift) ==> Error(Step(q, n, shift), n) < Error(q, n)
  {
    StepBetween(q, n, shift);
    if Error(q, n) >= Pow2(shift) {
      LargeErrorShrinks(q, n, shift);
    }
  }

  lemma {:induction false} LastStretch(q: nat, n: nat, shift: nat, k: nat)
    requires Error(q, n) < Pow2(shift) + k
    ensures Error(Iterate(q, n, shift, k), n) < Pow2(shift)
    decreases k
  {
    hide Step, Error, Pow2;
    if k > 0 {
      ErrorStep(q, n, shift);
      LastStretch(Step(q, n, shift), n, shift, k - 1);
      IterateFirst(q, n, shift, k);
    }
  }

  lemma InitialError(q: nat, n: u32)
    requires InRange(q)
    ensures Error(q, n) < 0x1_0000_0000_0000
  {
  }

  lemma FullRange(shift: nat)
    requires shift <= 15
    ensures Pow2(shift + 1) * Pow2(47 - shift) == 0x1_0000_0000_0000
  {
    Pow2Product(shift + 1, 47 - shift);
    Pow2Of48(16, 48);
  }

  /** The settling time is the rounds that halve the error and one last stretch. */
  lemma SettlingTimeParts(shift: nat, rounds: nat, last: nat)
    requires shift <= 15 && rounds == (47 - shift) * Pow2(shift + 1) && last == Pow2(shift)
    ensures SettlingTime(shift) == rounds + last && Pow2(shift + 1) == last + last
  {
  }

  /** From any 64-bit state, a constant input is output exactly from the settling time on. */
  lemma SettlesInTime(q: nat, n: u32, shift: nat, k: nat)
    requires InRange(q) && shift <= 15 && k >= SettlingTime(shift)
    ensures Output(Iterate(q, n, shift, k)) == n
  {
    hide Iterate, Output, Error, Pow2, SettlingTime, InRange;
    var rounds, last := (47 - shift) * Pow2(shift + 1), Pow2(shift);
    SettlingTimeParts(shift, rounds, last);
    var p := Iterate(q, n, shift, rounds);
    assert Error(p, n) < Pow2(shift + 1) by {
      InitialError(q, n);
      FullRange(shift);
      AfterHalvings(q, n, shift, 47 - shift, Pow2(shift + 1));
    }
    LastStretch(p, n, shift, last);
    var settled := Iterate(p, n, shift, last);
    IterateAdds(q, n, shift, rounds, last);
    SettledForever(settled, n, shift, k - (rounds + last));
    IterateAdds(q, n, shift, rounds + last, k - (rounds + last));
  }

  lemma {:induction false} Pow2Product(a: nat, b: nat)
    ensures Pow2(a) * Pow2(b) == Pow2(a + b)
  {
    if b > 0 {
      Pow2Product(a, b - 1);
      DoubleProduct(Pow2(a), Pow2(b - 1));
    }
  }

  lemma Pow2Of48(n: nat, m: nat)
    requires n == 16 && m == n + n + n
    ensures Pow2(m) == 0x1_0000_0000_0000
  {
    Pow2Of16(n);
    hide Pow2;
    Pow2Product(n, n);
    Pow2Product(n + n, n);
  }

  lemma Pow2Of16(n: nat)
    requires n == 16
    ensures Pow2(n) == 0x1_0000
  {
    Pow2Bounds(n - 1);
  }
}
