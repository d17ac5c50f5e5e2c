/** The span ring and conversion loop as the firmware runs them (PpsAdjust.cpp). */
module PpsSpanRing {
  import opened Words
  import opened RingWindow
  import opened PpsAdjust

  datatype DiagBit = CROSSED | MISSING_SCALE | DEGRADED_FALLBACK | MULTI_BOUNDARY

  predicate RingSize(n: nat) {
    n == 1 || n == 2 || n == 4 || n == 8 || n == 16 || n == 32
  }

  /** `(uint8_t)(head - 1 - i) & (size - 1)` */
  function Slot(head: nat, i: nat, size: nat): (k: nat)
    requires RingSize(size)
    ensures k < size
  {
    ((head - 1 - i) % 256) % size
  }

  lemma SlotIs(head: nat, i: nat, size: nat)
    requires RingSize(size) && head < size && i < size
    ensures Slot(head, i, size) == if i < head then head - 1 - i else size + head - 1 - i
  {
    if i < head {
      SlotAhead(head - 1 - i, size);
    } else {
      SlotBehind(i - head, size);
    }
  }

  lemma SlotAhead(k: nat, size: nat)
    requires RingSize(size) && k < size
    ensures (k % 256) % size == k
  {
  }

  lemma SlotBehind(k: nat, size: nat)
    requires RingSize(size) && k < size
    ensures ((-1 - k) % 256) % size == size - 1 - k
  {
    var rest := 255 - k;
    assert (-1 - k) % 256 == rest;
    match size
    case 1 => assert rest % 1 == 0 - k;
    case 2 => assert rest % 2 == 1 - k;
    case 4 => assert rest % 4 == 3 - k;
    case 8 => assert rest % 8 == 7 - k;
    case 16 => assert rest % 16 == 15 - k;
    case 32 => assert rest % 32 == 31 - k;
  }

  function Masked(i: nat, size: nat): nat
    requires size > 0
  {
    (i % 256) % size
  }

  lemma MaskedIsNext(head: nat, size: nat)
    requires RingSize(size) && head < size
    ensures Masked(head + 1, size) == Next(head, size)
  {
  }

  lemma WindowAt<T>(ring: seq<T>, head: nat, fill: nat, i: nat)
    requires WellFormed(ring, head, fill) && RingSize(|ring|) && i < fill
    ensures Window(ring, head, fill)[fill - 1 - i] == ring[Slot(head, i, |ring|)]
  {
    hide Slot, RingSize;
    SlotIs(head, i, |ring|);
  }

  // ---- the conversion loop runs at most |spans| + 1 turns ----

  function Numbers(spans: seq<Span>): (s: set<u32>)
    ensures |s| <= |spans|
  {
    if |spans| == 0 then {} else Numbers(spans[..|spans| - 1]) + {spans[|spans| - 1].seqNo}
  }

  lemma {:induction false} FoundIsNumber(spans: seq<Span>, n: u32)
    requires FindSeq(spans, n).Some?
    ensures n in Numbers(spans)
  {
    if spans[|spans| - 1].seqNo != n {
      FoundIsNumber(spans[..|spans| - 1], n);
    }
  }

  function Run(s: u32, m: nat): set<u32> {
    if m == 0 then {} else Run(s, m - 1) + {Wrap32(s + m - 1)}
  }

  lemma {:induction false} RunSize(s: u32, m: nat)
    requires m <= TWO32
    ensures |Run(s, m)| == m && forall x :: x in Run(s, m) ==> Sub32(x, s) < m
  {
    hide Wrap32, Sub32;
    if m > 0 {
      RunSize(s, m - 1);
      Small(s);
      Distance(s, m - 1);
    }
  }

  predicate FoundAt(spans: seq<Span>, s: u32, k: nat) {
    FindSeq(spans, Wrap32(s + k)).Some?
  }

  predicate AllFound(spans: seq<Span>, s: u32, m: nat) {
    forall k :: 0 <= k < m ==> FoundAt(spans, s, k)
  }

  lemma {:induction false} RunFound(spans: seq<Span>, s: u32, m: nat)
    requires AllFound(spans, s, m)
    ensures Run(s, m) <= Numbers(spans)
  {
    hide Wrap32, FindSeq;
    if m > 0 {
      RunFound(spans, s, m - 1);
      assert FoundAt(spans, s, m - 1);
      FoundIsNumber(spans, Wrap32(s + (m - 1)));
    }
  }

  /** No more consecutive seconds can be found than are remembered. */
  lemma TurnsAreBounded(spans: seq<Span>, s: u32, m: nat)
    requires m <= TWO32 && AllFound(spans, s, m)
    ensures m <= |spans|
  {
    hide Run, Numbers, AllFound;
    RunSize(s, m);
    RunFound(spans, s, m);
    SubsetSize(Run(s, m), Numbers(spans));
  }

  lemma SubsetSize<T>(a: set<T>, b: set<T>)
    requires a <= b
    ensures |a| <= |b|
  {
    assert b * a == a && |b - a| == |b| - |b * a|;
  }

  class SpanRing {
    const ring: array<Span>
    const mainClock: u32
    var head: u8
    var fill: u8
    var primed: bool
    var nominal: u32
    var seqNo: u32
    var start: u32
    var scale: u64
    var hz: u32

    ghost predicate RingOk()
      reads this`head, this`fill, ring
    {
      RingSize(ring.Length) && WellFormed(ring[..], head, fill)
    }

    ghost predicate Valid()
      reads this`head, this`fill, this`nominal, ring
    {
      RingOk() && mainClock > 0 && nominal > 0
    }

    /** The remembered seconds, oldest first. */
    ghost function Spans(): seq<Span>
      requires RingOk()
      reads this`head, this`fill, ring
    {
      Window(ring[..], head, fill)
    }

    ghost function View(): Seconds
      requires Valid()
      reads this, ring
    {
      Seconds(Spans(), primed, nominal, seqNo, start, hz, scale)
    }

    constructor (size: nat, mainClock: u32)
      requires RingSize(size) && mainClock > 0
      ensures Valid() && View().spans == [] && !View().primed && View().nominal == mainClock && fresh(ring)
      ensures ring.Length == size && this.mainClock == mainClock
    {
      ring := new Span[size](_ => Span(0, 0, 0, 0, 0));
      this.mainClock := mainClock;
      head, fill, primed, nominal := 0, 0, false, mainClock;
      seqNo, start, scale, hz := 0, 0, 0, mainClock;
    }

    /** ppsAdjustReset */
    method Reset(nominalHz: u32)
      requires Valid()
      modifies this
      ensures Valid() && View().nominal == OrNominal(nominalHz, mainClock)
      ensures View() == Seconds([], false, nominal, 0, 0, nominal, ScaleQ32(nominal, nominal))
    {
      nominal := OrNominal(nominalHz, mainClock);
      head, fill, primed, seqNo, start := 0, 0, false, 0, 0;
      scale, hz := ScaleQ32(nominal, nominal), nominal;
    }

    method SetRate(active: u32)
      requires Valid()
      modifies this`hz, this`scale
      ensures Valid()
      ensures View() == old(View()).(hz := OrNominal(active, nominal),
                                     scale := ScaleQ32(nominal, OrNominal(active, nominal)))
    {
      hide RingOk, Spans, ScaleQ32;
      hz := OrNominal(active, nominal);
      scale := ScaleQ32(nominal, hz);
    }

    method OnPpsPrimed(edge: u32, active: u32)
      requires Valid()
      modifies this`primed, this`seqNo, this`start, this`hz, this`scale
      ensures Valid() && View() == Prime(old(View()), edge, active)
    {
      hide RingOk, Spans, ScaleQ32;
      primed, seqNo, start := true, 0, edge;
      SetRate(active);
    }

    method OnPpsFinalized(prev: u32, curr: u32, applied: u32, next: u32)
      requires Valid()
      modifies this, ring
      ensures Valid() && View() == Finalize(old(View()), ring.Length, prev, curr, applied, next)
    {
      hide RingOk, Spans, ScaleQ32, Sub32, OrNominal, Last;
      if !primed {
        OnPpsPrimed(prev, applied);
      }
      PushSpan(Span(seqNo, prev, Sub32(curr, prev), OrNominal(applied, nominal), ScaleQ32(nominal, applied)));
      seqNo, start := (seqNo + 1) % TWO32, curr;
      SetRate(next);
    }

    method PushSpan(e: Span)
      requires Valid()
      modifies this`head, this`fill, ring
      ensures Valid() && View() == old(View()).(spans := Last(old(View()).spans + [e], ring.Length))
    {
      hide Window, Masked, Last;
      MaskedIsNext(head, ring.Length);
      PushKeepsLatest(ring[..], head, fill, e);
      ghost var before := ring[..];
      ring[head] := e;
      assert ring[..] == before[head := e];
      head := Masked(head + 1, ring.Length);
      if fill < ring.Length {
        fill := fill + 1;
      }
    }

    method FindSpanBySeq(number: u32) returns (found: Option<Span>)
      requires Valid()
      ensures found == FindSeq(View().spans, number)
    {
      hide Window, Slot;
      ghost var w := View().spans;
      assert w[..fill] == w;
      var i := 0;
      while i < fill
        invariant 0 <= i <= fill && FindSeq(w, number) == FindSeq(w[..fill - i], number)
      {
        WindowAt(ring[..], head, fill, i);
        assert w[..fill - i][..fill - i - 1] == w[..fill - i - 1];
        var e := ring[Slot(head, i, ring.Length)];
        if e.seqNo == number {
          return Some(e);
        }
        i := i + 1;
      }
      found := None;
    }

    method FindSpanByTick(edge: u32) returns (found: Option<Stamp>)
      requires Valid()
      ensures found == FindTick(View().spans, edge)
    {
      hide Window, Slot, Sub32;
      ghost var w := View().spans;
      assert w[..fill] == w;
      var i := 0;
      while i < fill
        invariant 0 <= i <= fill && FindTick(w, edge) == FindTick(w[..fill - i], edge)
      {
        WindowAt(ring[..], head, fill, i);
        assert w[..fill - i][..fill - i - 1] == w[..fill - i - 1];
        var e := ring[Slot(head, i, ring.Length)];
        if e.ticks != 0 {
          var dt := Sub32(edge, e.start);
          if dt < e.ticks {
            return Some(Stamp(e.seqNo, dt));
          }
        }
        i := i + 1;
      }
      found := None;
    }

    method TagTick(edge: u32) returns (tag: Option<Stamp>)
      requires Valid()
      ensures tag == TagOf(View(), edge)
    {
      hide Window, Sub32, FindTick;
      if !primed {
        return None;
      }
      tag := FindSpanByTick(edge);
      if tag.None? {
        var dt := Sub32(edge, start);
        if dt <= (nominal * 2) % TWO32 {
          tag := Some(Stamp(seqNo, dt));
        }
      }
    }

    method FindScaleBySeq(number: u32) returns (found: Option<u64>)
      requires Valid()
      ensures found == ScaleOf(View(), number)
    {
      hide Window, FindSeq;
      if number == seqNo && primed {
        return Some(scale);
      }
      var e := FindSpanBySeq(number);
      found := if e.Some? then Some(e.value.scale) else None;
    }

    /** Raw ticks for one turn of the loop; None where the firmware falls back. */
    method Segment(a: Stamp, b: Stamp, raw: u32, delta: u32, i: u32) returns (ticks: Option<u32>)
      requires Valid() && delta == Sub32(b.seqNo, a.seqNo) && i <= delta
      ensures ticks == SegmentAt(View(), a, b, raw, i)
      ensures ticks.Some? && i < delta ==> FoundAt(View().spans, a.seqNo, i)
    {
      hide Window, FindSeq, Sub32;
      var number := (a.seqNo + i) % TWO32;
      if delta == 0 {
        return Some(raw);
      }
      if i == delta {
        return Some(b.offset);
      }
      var e := FindSpanBySeq(number);
      if e.None? || (i == 0 && a.offset > e.value.ticks) {
        return None;
      }
      ticks := Some(if i == 0 then e.value.ticks - a.offset else e.value.ticks);
    }

    /** ppsAdjustIntervalToNominalTicks: the conversion, or the raw ticks and a fallback flag. */
    method IntervalToNominalTicks(a: Stamp, b: Stamp, raw: u32, diagIn: set<DiagBit>)
      returns (ok: bool, adjusted: u32, diag: set<DiagBit>)
      requires Valid()
      ensures ok <==> Convert(View(), a, b, raw).Some?
      ensures adjusted == if ok then Convert(View(), a, b, raw).value else raw
      ensures diag ==
        diagIn + Crossings(Sub32(b.seqNo, a.seqNo)) + if ok then {} else {MISSING_SCALE, DEGRADED_FALLBACK}
    {
      hide Window, Sub32, SegmentAt, ScaleOf, Term, FoundAt;
      ghost var v := View();
      var delta := Sub32(b.seqNo, a.seqNo);
      diag := diagIn + Crossings(delta);
      var remaining: u32, total: u64, i: u32 := raw, 0, 0;
      while i <= delta
        invariant i <= delta + 1 && 0 <= total <= i * 0xFFFF_FFFF
        invariant Convert(v, a, b, raw) == Walk(v, a, b, raw, i, remaining, total)
        invariant AllFound(v.spans, a.seqNo, if i <= delta then i else delta)
        decreases delta + 1 - i
      {
        var ticks := Segment(a, b, raw, delta, i);
        if ticks.None? {
          return false, raw, diag + {MISSING_SCALE, DEGRADED_FALLBACK};
        }
        var scale := FindScaleBySeq((a.seqNo + i) % TWO32);
        if scale.None? {
          return false, raw, diag + {MISSING_SCALE, DEGRADED_FALLBACK};
        }
        TurnsAreBounded(v.spans, a.seqNo, i);
        var segment := Min(ticks.value, remaining);
        remaining := remaining - segment;
        total := total + Term(segment, scale.value);
        i := i + 1;
      }
      if remaining != 0 {
        return false, raw, diag + {MISSING_SCALE, DEGRADED_FALLBACK};
      }
      return true, if total > 0xFFFF_FFFF then 0xFFFF_FFFF else total, diag;
    }
  }

  function Crossings(delta: u32): set<DiagBit> {
    (if delta > 0 then {CROSSED} else {}) + (if delta > 1 then {MULTI_BOUNDARY} else {})
  }
}
