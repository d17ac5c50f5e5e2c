/** Turning 16-bit counters, an overflow interrupt and a pending flag into one timeline
    (PendulumCapture.cpp), and the milliseconds derived from it (PlatformTime.cpp). */
module CaptureTimeline {
  import opened Words

  /** TCB0 ticks between the two reads of a counter pair. */
  const SAMPLE_SKEW := 6

  const TWO48: int := 0x1_0000_0000_0000

  /** A free-running 16-bit capture counter, `phase` ticks behind TCB0. */
  function CounterAt(tick: nat, phase: nat): u16 {
    (tick - phase) % TWO16
  }

  /** Capture and sample less than one counter period apart are told apart exactly. */
  lemma LatencyIsExact(captured: nat, sampled: nat, phase: nat)
    requires captured <= sampled < captured + TWO16
    ensures (CounterAt(sampled, phase) - CounterAt(captured, phase)) % TWO16 == sampled - captured
  {
  }

  lemma ExtendTo32(epoch: nat, cnt: u16)
    ensures Wrap32(epoch % TWO16 * TWO16 + cnt) == Wrap32(epoch * TWO16 + cnt)
  {
    var q := epoch / TWO16;
    assert epoch * TWO16 + cnt == epoch % TWO16 * TWO16 + cnt + q * TWO32;
  }

  lemma ExtendTo48(epoch: nat, cnt: u16)
    ensures epoch % TWO32 * TWO16 + cnt == (epoch * TWO16 + cnt) % TWO48
  {
    var q := epoch / TWO32;
    assert epoch * TWO16 + cnt == epoch % TWO32 * TWO16 + cnt + q * TWO48;
  }

  lemma WrapShift(a: int, b: int, x: int, y: int)
    requires Wrap32(a) == Wrap32(b)
    ensures Wrap32(a + x) == Wrap32(b + x) && Wrap32(Wrap32(a + x) + y) == Wrap32(b + x + y)
  {
  }

  lemma QuotientFacts(a: nat, d: nat)
    requires d > 0
    ensures a / d * d <= a < a / d * d + d
  {
  }

  lemma MulMonotone(a: nat, b: nat, d: nat)
    requires a <= b
    ensures a * d <= b * d
  {
    assert b * d == a * d + (b - a) * d;
  }

  lemma LessByProduct(q: nat, r: nat, d: nat)
    requires d > 0 && q * d < r * d + d
    ensures q <= r
  {
    assert r * d + d == (r + 1) * d;
    if q > r {
      MulMonotone(r + 1, q, d);
    }
  }

  lemma Increment16(n: nat)
    ensures (n % TWO16 + 1) % TWO16 == (n + 1) % TWO16
  {
  }

  lemma Increment32(n: nat)
    ensures (n % TWO32 + 1) % TWO32 == (n + 1) % TWO32
  {
    var q := n / TWO32;
    assert n == q * TWO32 + n % TWO32;
    if n % TWO32 + 1 == TWO32 {
      assert n + 1 == (q + 1) * TWO32;
    } else {
      assert n + 1 == q * TWO32 + (n % TWO32 + 1);
    }
  }

  /** Whole milliseconds in a number of ticks. */
  function InMs(ticks: nat, ticksPerMs: nat): nat
    requires ticksPerMs > 0
  {
    ticks / ticksPerMs
  }

  lemma InMsMonotone(a: nat, b: nat, d: nat)
    requires a <= b && d > 0
    ensures InMs(a, d) <= InMs(b, d)
  {
    QuotientFacts(a, d);
    QuotientFacts(b, d);
    LessByProduct(a / d, b / d, d);
  }

  function Sum(s: seq<nat>): nat {
    if |s| == 0 then 0 else Sum(s[..|s| - 1]) + s[|s| - 1]
  }

  /** A reading of the milliseconds, after some waits that end in a served overflow each. */
  datatype Reading = Reading(waits: seq<nat>, toCnt: nat, toFlag: nat, toRetry: nat)

  /** No overflow is missed: interrupts are served at least once a counter period. */
  predicate Brief(r: Reading) {
    (forall w :: w in r.waits ==> w <= TWO16) && r.toCnt + r.toFlag + r.toRetry <= TWO16
  }

  function Duration(r: Reading): nat {
    Sum(r.waits) + r.toCnt + r.toFlag + r.toRetry
  }

  function Waited(readings: seq<Reading>): nat {
    if |readings| == 0 then 0 else Waited(readings[..|readings| - 1]) + Sum(readings[|readings| - 1].waits)
  }

  function TotalDuration(readings: seq<Reading>): nat {
    if |readings| == 0 then 0 else TotalDuration(readings[..|readings| - 1]) + Duration(readings[|readings| - 1])
  }

  lemma {:induction false} PartOfDuration(readings: seq<Reading>, k: nat)
    requires k <= |readings|
    ensures TotalDuration(readings[..k]) <= TotalDuration(readings)
  {
    if k < |readings| {
      PartOfDuration(readings[..|readings| - 1], k);
      assert readings[..|readings| - 1][..k] == readings[..k];
    } else {
      assert readings[..k] == readings;
    }
  }

  lemma NoReadings(readings: seq<Reading>)
    requires readings == []
    ensures Waited(readings) == TotalDuration(readings) == 0
  {
  }

  lemma OneMoreReading(readings: seq<Reading>, i: nat)
    requires i < |readings|
    ensures Waited(readings[..i + 1]) == Waited(readings[..i]) + Sum(readings[i].waits)
    ensures TotalDuration(readings[..i + 1]) == TotalDuration(readings[..i]) + Duration(readings[i])
    ensures TotalDuration(readings[..i + 1]) <= TotalDuration(readings)
  {
    assert readings[..i + 1][..i] == readings[..i];
    PartOfDuration(readings, i + 1);
  }

  lemma Wrapped(n: nat)
    ensures Wrap32(Wrap32(n) + 1) == Wrap32(n + 1) && Wrap32(n) != Wrap32(n + 1)
    ensures n < TWO32 ==> Wrap32(n) == n
  {
    Increment32(n);
  }

  /** Readings at these true times that are below `ms` milliseconds. */
  function Below(times: seq<nat>, ticksPerMs: nat, ms: nat): nat
    requires ticksPerMs > 0
  {
    if |times| == 0 then 0
    else Below(times[..|times| - 1], ticksPerMs, ms) + if InMs(times[|times| - 1], ticksPerMs) < ms then 1 else 0
  }

  lemma BelowNone(times: seq<nat>, ticksPerMs: nat, ms: nat)
    requires times == [] && ticksPerMs > 0
    ensures Below(times, ticksPerMs, ms) == 0
  {
  }

  lemma BelowMore(times: seq<nat>, t: nat, ticksPerMs: nat, ms: nat)
    requires ticksPerMs > 0
    ensures Below(times + [t], ticksPerMs, ms) ==
            Below(times, ticksPerMs, ms) + if InMs(t, ticksPerMs) < ms then 1 else 0
  {
    assert (times + [t])[..|times|] == times;
  }

  datatype CaptureMath = CaptureMath(now32: u32, latency16: u16, edge32: u32)

  /** TCB0 (counter register and overflow flag) and its software extension. The ghost epoch
      counts true counter periods; every `wait` is time the environment lets pass before a
      register is read. */
  class Timebase {
    var cnt: u16
    var overflowFlag: bool
    ghost var epoch: nat
    var tcb0Ovf: u16
    var wrapDetected: u32
    var lastMs: nat
    var backsteps: u32

    /** The software counters are the overflows handled; at most one is pending. */
    ghost predicate Valid()
      reads this`overflowFlag, this`epoch, this`tcb0Ovf, this`wrapDetected
    {
      var served := if overflowFlag then epoch - 1 else epoch;
      served >= 0 && tcb0Ovf == served % TWO16 && wrapDetected == served % TWO32
    }

    /** True ticks since the timer was last started. */
    ghost function Ticks(): nat
      reads this`epoch, this`cnt
    {
      epoch * TWO16 + cnt
    }

    /** After this wait still at most one overflow is unhandled. */
    ghost predicate MayWait(wait: nat)
      reads this`cnt, this`overflowFlag
    {
      cnt + wait < if overflowFlag then TWO16 else 2 * TWO16
    }

    /** A flag read after this wait shows an overflow, and the counters are read again. */
    ghost predicate ShowsOverflow(wait: nat)
      reads this`cnt, this`overflowFlag
    {
      overflowFlag || cnt + wait >= TWO16
    }

    ghost function WithRetry(wait: nat, toRetry: nat): nat
      reads this`cnt, this`overflowFlag
    {
      if ShowsOverflow(wait) then wait + toRetry else wait
    }

    /** The tick at which the pair that is kept is read. */
    ghost function SampleTick(toPair: nat, toFlag: nat, toRetry: nat): nat
      reads this`cnt, this`overflowFlag, this`epoch
    {
      var toTest := toPair + SAMPLE_SKEW + toFlag;
      Ticks() + if ShowsOverflow(toTest) then toTest + toRetry else toPair
    }

    constructor ()
      ensures Valid() && Ticks() == 0 && lastMs == 0 && backsteps == 0
    {
      cnt, overflowFlag, epoch, tcb0Ovf, wrapDetected, lastMs, backsteps := 0, false, 0, 0, 0, 0, 0;
    }

    /** captureResetAndReinit: the counter and both overflow counts start over; the
        millisecond bookkeeping does not. */
    method Restart()
      modifies this`cnt, this`overflowFlag, this`epoch, this`tcb0Ovf, this`wrapDetected
      ensures Valid() && Ticks() == 0 && cnt == 0 && !overflowFlag
    {
      cnt, overflowFlag, epoch, tcb0Ovf, wrapDetected := 0, false, 0, 0, 0;
    }

    /** Time passes; the hardware counts and may wrap. */
    method Elapse(wait: nat)
      requires Valid() && MayWait(wait)
      modifies this`cnt, this`overflowFlag, this`epoch
      ensures Valid() && Ticks() == old(Ticks()) + wait
      ensures if overflowFlag == old(overflowFlag) then epoch == old(epoch) else overflowFlag && epoch == old(epoch) + 1
    {
      if cnt + wait >= TWO16 {
        cnt, overflowFlag, epoch := cnt + wait - TWO16, true, epoch + 1;
      } else {
        cnt := cnt + wait;
      }
    }

    /** TCB0_INT_vect */
    method OverflowIsr()
      requires Valid() && overflowFlag
      modifies this`overflowFlag, this`tcb0Ovf, this`wrapDetected
      ensures Valid() && !overflowFlag
    {
      Increment16(epoch - 1);
      Increment32(epoch - 1);
      overflowFlag := false;
      tcb0Ovf := (tcb0Ovf + 1) % TWO16;
      wrapDetected := (wrapDetected + 1) % TWO32;
    }

    /** The capture counter as it reads SAMPLE_SKEW ticks after TCB0 is read. */
    method CaptureCounter(phase: nat) returns (c: u16)
      ensures c == CounterAt(Ticks() + SAMPLE_SKEW, phase)
    {
      c := (cnt + SAMPLE_SKEW - phase) % TWO16;
      assert Ticks() + SAMPLE_SKEW - phase == cnt + SAMPLE_SKEW - phase + epoch * TWO16;
    }

    /** With the overflow pending, the pair as the next reads see it. */
    method Refresh(count: u16, phase: nat, toRetry: nat)
      returns (ovf: u16, tcb0Cnt: u16, captureCnt: u16, ghost sampled: nat)
      requires Valid() && overflowFlag && MayWait(toRetry) && count == tcb0Ovf
      modifies this`cnt, this`overflowFlag, this`epoch
      ensures Valid() && sampled == Ticks() == old(Ticks()) + toRetry
      ensures captureCnt == CounterAt(sampled + SAMPLE_SKEW, phase) && Wrap32(ovf * TWO16 + tcb0Cnt) == Wrap32(sampled)
    {
      hide CounterAt, Wrap32;
      Increment16(epoch - 1);
      ovf := (count + 1) % TWO16;
      Elapse(toRetry);
      sampled := Ticks();
      tcb0Cnt := cnt;
      captureCnt := CaptureCounter(phase);
      ExtendTo32(epoch, tcb0Cnt);
    }

    /** The pair of counters, refreshed if an overflow shows. */
    method ReadCoherentPair(phase: nat, toPair: nat, toFlag: nat, toRetry: nat)
      returns (ovf: u16, tcb0Cnt: u16, captureCnt: u16, ghost sampled: nat)
      requires Valid() && MayWait(WithRetry(toPair + SAMPLE_SKEW + toFlag, toRetry))
      modifies this`cnt, this`overflowFlag, this`epoch
      ensures Valid() && Ticks() == old(Ticks()) + old(WithRetry(toPair + SAMPLE_SKEW + toFlag, toRetry))
      ensures sampled == old(SampleTick(toPair, toFlag, toRetry)) && old(Ticks()) <= sampled <= Ticks()
      ensures captureCnt == CounterAt(sampled + SAMPLE_SKEW, phase)
      ensures Wrap32(ovf * TWO16 + tcb0Cnt) == Wrap32(sampled)
    {
      hide CounterAt, Wrap32;
      ovf := tcb0Ovf;
      Elapse(toPair);
      sampled := Ticks();
      tcb0Cnt := cnt;
      captureCnt := CaptureCounter(phase);
      ghost var e := epoch;
      Elapse(SAMPLE_SKEW + toFlag);
      if overflowFlag {
        ovf, tcb0Cnt, captureCnt, sampled := Refresh(ovf, phase, toRetry);
      } else {
        ExtendTo32(e, tcb0Cnt);
      }
    }

    /** capture_math_from_regs_isr_only: the reconstructed edge is the true tick at which the
        input changed, whatever the latency below a counter period and wherever the one
        pending overflow falls. */
    method ReconstructEdge(ccmp: u16, phase: nat, delay: nat, toPair: nat, toFlag: nat, toRetry: nat,
                           ghost captured: nat)
      returns (r: CaptureMath)
      requires Valid() && MayWait(WithRetry(toPair + SAMPLE_SKEW + toFlag, toRetry))
      requires captured <= Ticks() && ccmp == CounterAt(captured, phase)
      requires SampleTick(toPair, toFlag, toRetry) + SAMPLE_SKEW < captured + TWO16
      modifies this`cnt, this`overflowFlag, this`epoch
      ensures Valid() && Ticks() >= old(Ticks())
      ensures r.edge32 == Wrap32(captured - delay)
      ensures r.latency16 == old(SampleTick(toPair, toFlag, toRetry)) + SAMPLE_SKEW - captured
      ensures r.now32 == Wrap32(old(SampleTick(toPair, toFlag, toRetry)) + SAMPLE_SKEW)
    {
      hide CounterAt;
      var ovf, tcb0Cnt, captureCnt;
      ghost var sampled;
      ovf, tcb0Cnt, captureCnt, sampled := ReadCoherentPair(phase, toPair, toFlag, toRetry);
      LatencyIsExact(captured, sampled + SAMPLE_SKEW, phase);
      var now32 := Wrap32(ovf * TWO16 + tcb0Cnt + SAMPLE_SKEW);
      var latency := (captureCnt - ccmp) % TWO16;
      WrapShift(ovf * TWO16 + tcb0Cnt, sampled, SAMPLE_SKEW, -latency - delay);
      hide Wrap32;
      r := CaptureMath(now32, latency, Wrap32(now32 - latency - delay));
    }

    /** tcb0NowCoherentMainLoop and tcb0NowCoherent64, which differ in the width of the
        overflow count they extend: exact modulo 2^32 and modulo 2^48. */
    method NowCoherent(toCnt: nat, toFlag: nat, toRetry: nat) returns (now32: u32, now64: nat, ghost sampled: nat)
      requires Valid() && MayWait(WithRetry(toCnt + toFlag, toRetry))
      modifies this`cnt, this`overflowFlag, this`epoch
      ensures Valid() && old(Ticks()) <= sampled <= Ticks() <= old(Ticks()) + toCnt + toFlag + toRetry
      ensures now32 == Wrap32(sampled) && now64 == sampled % TWO48
    {
      hide Wrap32;
      var ovf, wraps := tcb0Ovf, wrapDetected;
      Elapse(toCnt);
      sampled := Ticks();
      var low := cnt;
      ghost var e := epoch;
      Elapse(toFlag);
      if overflowFlag {
        Increment16(epoch - 1);
        Increment32(epoch - 1);
        ovf, wraps := (ovf + 1) % TWO16, (wraps + 1) % TWO32;
        Elapse(toRetry);
        sampled := Ticks();
        low := cnt;
        e := epoch;
      }
      assert ovf == e % TWO16 && wraps == e % TWO32 && sampled == e * TWO16 + low;
      now32, now64 := Extend(ovf, wraps, low, e, sampled);
    }

    /** The two widths of the coherent reader, of one epoch. */
    static method Extend(ovf: u16, wraps: u32, low: u16, ghost epoch: nat, ghost sampled: nat)
      returns (now32: u32, now64: nat)
      requires ovf == epoch % TWO16 && wraps == epoch % TWO32 && sampled == epoch * TWO16 + low
      ensures now32 == Wrap32(sampled) && now64 == sampled % TWO48
    {
      ExtendTo32(epoch, low);
      ExtendTo48(epoch, low);
      now32 := Wrap32(ovf * TWO16 + low);
      now64 := wraps * TWO16 + low;
    }

    /** platformMillis: below 2^48 ticks since the timer was started it never steps back. */
    method PlatformMillis(ticksPerMs: nat, toCnt: nat, toFlag: nat, toRetry: nat) returns (ms: u32, ghost sampled: nat)
      requires Valid() && MayWait(WithRetry(toCnt + toFlag, toRetry)) && ticksPerMs > 0
      modifies this`cnt, this`overflowFlag, this`epoch, this`lastMs, this`backsteps
      ensures Valid() && old(Ticks()) <= sampled <= Ticks() <= old(Ticks()) + toCnt + toFlag + toRetry
      ensures ms == Wrap32(InMs(sampled % TWO48, ticksPerMs))
      ensures InMs(sampled % TWO48, ticksPerMs) < old(lastMs) ==>
        lastMs == old(lastMs) && backsteps == Wrap32(old(backsteps) + 1)
      ensures InMs(sampled % TWO48, ticksPerMs) >= old(lastMs) ==>
        lastMs == InMs(sampled % TWO48, ticksPerMs) && backsteps == old(backsteps)
      ensures sampled < TWO48 && old(lastMs) <= InMs(old(Ticks()), ticksPerMs) ==>
        old(lastMs) <= lastMs == InMs(sampled, ticksPerMs) <= InMs(Ticks(), ticksPerMs) && backsteps == old(backsteps)
    {
      hide InMs, Wrap32, Timebase.Valid, Timebase.MayWait;
      ghost var before := Ticks();
      var now32, now64;
      now32, now64, sampled := NowCoherent(toCnt, toFlag, toRetry);
      var nowMs := InMs(now64, ticksPerMs);
      InMsMonotone(before, sampled, ticksPerMs);
      InMsMonotone(sampled, Ticks(), ticksPerMs);
      if nowMs < lastMs {
        backsteps := Wrap32(backsteps + 1);
      } else {
        lastMs := nowMs;
      }
      ms := Wrap32(nowMs);
    }

    /** Time passes in these waits, and every overflow interrupt is served. */
    method Pass(waits: seq<nat>)
      requires Valid() && forall w :: w in waits ==> w <= TWO16
      modifies this`cnt, this`overflowFlag, this`epoch, this`tcb0Ovf, this`wrapDetected
      ensures Valid() && !overflowFlag && Ticks() == old(Ticks()) + Sum(waits)
    {
      hide Timebase.Valid, Timebase.Ticks;
      Serve();
      var i := 0;
      assert waits[..0] == [];
      while i < |waits|
        invariant 0 <= i <= |waits| && Valid() && !overflowFlag && Ticks() == old(Ticks()) + Sum(waits[..i])
      {
        assert waits[..i + 1][..i] == waits[..i] && waits[i] in waits;
        Elapse(waits[i]);
        Serve();
        i := i + 1;
      }
      assert waits[..i] == waits;
    }

    method Serve()
      requires Valid()
      modifies this`overflowFlag, this`tcb0Ovf, this`wrapDetected
      ensures Valid() && !overflowFlag
    {
      if overflowFlag {
        OverflowIsr();
      }
    }

    /** A reading after these waits: a back step if and only if its milliseconds are below the
        remembered ones. */
    method ReadAfter(r: Reading, ticksPerMs: nat) returns (ms: u32, ghost sampled: nat)
      requires Valid() && ticksPerMs > 0 && Brief(r)
      modifies this
      ensures Valid() && old(Ticks()) + Sum(r.waits) <= sampled <= Ticks() <= old(Ticks()) + Duration(r)
      ensures ms == Wrap32(InMs(sampled % TWO48, ticksPerMs))
      ensures backsteps == Wrap32(old(backsteps) + 1) <==> InMs(sampled % TWO48, ticksPerMs) < old(lastMs)
      ensures backsteps in {old(backsteps), Wrap32(old(backsteps) + 1)}
      ensures lastMs == Max(old(lastMs), InMs(sampled % TWO48, ticksPerMs))
    {
      hide InMs, Timebase.Valid, Timebase.Ticks;
      Pass(r.waits);
      ms, sampled := PlatformMillis(ticksPerMs, r.toCnt, r.toFlag, r.toRetry);
    }

    /** A restart of the timer does make it step back, since the remembered milliseconds
        survive: at any time after it, with the overflow interrupts served, the next reading is
        a back step if and only if it is below the value remembered at the restart. */
    method RestartStepsBack(r: Reading, ticksPerMs: nat) returns (ms: u32, ghost sampled: nat)
      requires Valid() && ticksPerMs > 0 && Brief(r)
      modifies this
      ensures Sum(r.waits) <= sampled <= Duration(r) && ms == Wrap32(InMs(sampled % TWO48, ticksPerMs))
      ensures backsteps == Wrap32(old(backsteps) + 1) <==> InMs(sampled % TWO48, ticksPerMs) < old(lastMs)
      ensures backsteps in {old(backsteps), Wrap32(old(backsteps) + 1)}
      ensures lastMs == Max(old(lastMs), InMs(sampled % TWO48, ticksPerMs))
    {
      hide InMs, Timebase.Valid;
      Restart();
      ms, sampled := ReadAfter(r, ticksPerMs);
    }

    /** ... and of all the readings after it, in the 2^48 ticks that follow, exactly those below
        that value are counted as back steps: once it is reached again none is. */
    method ReadingsAfterRestart(readings: seq<Reading>, ticksPerMs: nat) returns (ghost times: seq<nat>)
      requires Valid() && ticksPerMs > 0
      requires (forall r :: r in readings ==> Brief(r)) && TotalDuration(readings) < TWO48
      modifies this
      ensures |times| == |readings|
      ensures forall k :: 0 <= k < |times| ==>
        Waited(readings[..k + 1]) <= times[k] <= TotalDuration(readings[..k + 1])
      ensures backsteps == Wrap32(old(backsteps) + Below(times, ticksPerMs, old(lastMs)))
      ensures lastMs == if |times| == 0 then old(lastMs) else Max(old(lastMs), InMs(times[|times| - 1], ticksPerMs))
    {
      hide InMs, Brief, Wrap32, Timebase.Valid, Timebase.Ticks, Waited, TotalDuration, Below;
      ghost var ms, steps := lastMs, backsteps;
      Restart();
      times := [];
      var i := 0;
      NoReadings(readings[..0]);
      BelowNone(times, ticksPerMs, ms);
      Wrapped(steps);
      while i < |readings|
        invariant 0 <= i <= |readings| && |times| == i && Valid()
        invariant Waited(readings[..i]) <= Ticks() <= TotalDuration(readings[..i])
        invariant forall k :: 0 <= k < i ==>
          Waited(readings[..k + 1]) <= times[k] <= TotalDuration(readings[..k + 1]) && times[k] <= Ticks()
        invariant backsteps == Wrap32(steps + Below(times, ticksPerMs, ms))
        invariant lastMs == if i == 0 then ms else Max(ms, InMs(times[i - 1], ticksPerMs))
      {
        assert readings[i] in readings;
        OneMoreReading(readings, i);
        var reading;
        ghost var sampled;
        reading, sampled := ReadAfter(readings[i], ticksPerMs);
        BelowMore(times, sampled, ticksPerMs, ms);
        if i > 0 {
          InMsMonotone(times[i - 1], sampled, ticksPerMs);
        }
        Wrapped(steps + Below(times, ticksPerMs, ms));
        times := times + [sampled];
        i := i + 1;
      }
      assert readings[..i] == readings;
    }
  }
}
