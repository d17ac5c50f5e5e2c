/** Converting raw timer intervals to nominal ticks across PPS seconds (PpsAdjust.cpp). */
module PpsAdjust {
  import opened Words
  import opened RingWindow

  const TWO64: int := 0x1_0000_0000_0000_0000

  type u64 = x: int | 0 <= x < 0x1_0000_0000_0000_0000

  /** A finished PPS second. */
  datatype Span = Span(seqNo: u32, start: u32, ticks: u32, hz: u32, scale: u64)

  datatype Stamp = Stamp(seqNo: u32, offset: u32)

  /** The remembered seconds, oldest first, and the second in progress. */
  datatype Seconds = Seconds(spans: seq<Span>, primed: bool, nominal: u32, seqNo: u32, start: u32, hz: u32, scale: u64)

  // ---- fixed-point scaling ----

  /** hz_to_scale_q32: nominal/hz in Q32, rounded to nearest. */
  function ScaleQ32(nominal: u32, hz: u32): (scale: u64)
    requires nominal > 0
  {
    var h := OrNominal(hz, nominal);
    ScaleFits(nominal, h);
    Quotient(nominal * TWO32 + h / 2, h)
  }

  function Quotient(a: nat, b: nat): (q: nat)
    requires b > 0
    ensures q * b <= a < q * b + b
  {
    a / b
  }

  lemma ScaleFits(nominal: u32, h: u32)
    requires h > 0
    ensures Quotient(nominal * TWO32 + h / 2, h) < TWO64
  {
    var q := Quotient(nominal * TWO32 + h / 2, h);
    Scaled(q, 1, h);
  }

  /** One segment in nominal ticks, as 64-bit arithmetic computes it: the product may wrap. */
  function Term(ticks: u32, scale: u64): (r: u32)
  {
    var product := (ticks * scale) % TWO64;
    ((product + 0x8000_0000) % TWO64) / TWO32
  }

  predicate Fits(ticks: u32, scale: u64) {
    ticks * scale + 0x8000_0000 < TWO64
  }

  lemma ScaleRounds(nominal: u32, hz: u32)
    requires nominal > 0 && hz > 0
    ensures 2 * AbsDiff(ScaleQ32(nominal, hz) * hz, nominal * TWO32) <= hz
  {
  }

  /** `(p + 2^31) >> 32` without a limit on p. */
  function Nearest(p: int): int {
    (p + 0x8000_0000) / TWO32
  }

  lemma HighHalf(s: nat)
    ensures (s % TWO64) / TWO32 == s / TWO32 % TWO32
  {
    var q, low := s / TWO64, s % TWO64;
    assert s == q * TWO64 + low;
    assert s / TWO32 == q * TWO32 + low / TWO32;
  }

  lemma NearestWraps(p: nat)
    ensures ((p % TWO64 + 0x8000_0000) % TWO64) / TWO32 == Nearest(p) % TWO32
    ensures Nearest(p) < TWO32 <==> p + 0x8000_0000 < TWO64
    ensures AbsDiff(Nearest(p) * TWO32, p) <= TWO31
  {
    var s := p + 0x8000_0000;
    assert (p % TWO64 + 0x8000_0000) % TWO64 == s % TWO64;
    HighHalf(s);
  }

  /** A segment is its nearest value modulo 2^32, and fits exactly when that value does. */
  lemma TermIsNearest(ticks: u32, scale: u64)
    ensures Nearest(ticks * scale) >= 0 && Term(ticks, scale) == Nearest(ticks * scale) % TWO32
    ensures Fits(ticks, scale) <==> Nearest(ticks * scale) < TWO32
  {
    var p := ticks * scale;
    assert p >= 0;
    NearestWraps(p);
  }

  /** The nearest value is less than one tick from the exact ticks * nominal / hz. */
  lemma NearestWithinOneTick(ticks: u32, nominal: u32, hz: u32)
    requires nominal > 0 && hz > 0
    ensures AbsDiff(Nearest(ticks * ScaleQ32(nominal, hz)) * hz, ticks * nominal) < hz
  {
    hide Nearest, ScaleQ32;
    var scale := ScaleQ32(nominal, hz);
    assert ticks * scale >= 0;
    NearestWraps(ticks * scale);
    TermIsNearest(ticks, scale);
    ScaleRounds(nominal, hz);
    TwoRoundings(Nearest(ticks * scale), ticks, scale, nominal, hz);
  }

  /** A converted segment is less than one tick from the exact ticks * nominal / hz. */
  lemma TermWithinOneTick(ticks: u32, nominal: u32, hz: u32)
    requires nominal > 0 && hz > 0 && Fits(ticks, ScaleQ32(nominal, hz))
    ensures AbsDiff(Term(ticks, ScaleQ32(nominal, hz)) * hz, ticks * nominal) < hz
  {
    hide Nearest, Term, ScaleQ32, Fits;
    TermIsNearest(ticks, ScaleQ32(nominal, hz));
    NearestWithinOneTick(ticks, nominal, hz);
  }

  /** ... and not within one tick of it whenever the 64-bit product wraps. */
  lemma TermIsAccurateIffFits(ticks: u32, nominal: u32, hz: u32)
    requires nominal > 0 && hz > 0
    ensures Fits(ticks, ScaleQ32(nominal, hz)) <==>
            AbsDiff(Term(ticks, ScaleQ32(nominal, hz)) * hz, ticks * nominal) < hz
  {
    hide Nearest, Term, ScaleQ32, Fits;
    var scale := ScaleQ32(nominal, hz);
    TermIsNearest(ticks, scale);
    NearestWithinOneTick(ticks, nominal, hz);
    if !Fits(ticks, scale) {
      WrappedBelow(Term(ticks, scale), Nearest(ticks * scale), hz);
    }
  }

  lemma WrappedBelow(r: nat, nearest: nat, hz: nat)
    requires nearest >= TWO32 && r == nearest % TWO32
    ensures r * hz <= nearest * hz - TWO32 * hz && r <= nearest - TWO32
  {
    Scaled(hz, r, nearest - TWO32);
    assert hz * (nearest - TWO32) == hz * nearest - hz * TWO32;
  }

  lemma TwoRoundings(r: nat, ticks: u32, scale: nat, nominal: nat, hz: nat)
    requires hz > 0
    requires AbsDiff(r * TWO32, ticks * scale) <= TWO31
    requires 2 * AbsDiff(scale * hz, nominal * TWO32) <= hz
    ensures AbsDiff(r * hz, ticks * nominal) < hz
  {
    ErrorSplits(r, ticks, scale, nominal, hz);
    Bounded(r * hz - ticks * nominal, r * TWO32 - ticks * scale, 2 * (scale * hz - nominal * TWO32), ticks, hz);
  }

  lemma ErrorSplits(r: int, ticks: int, scale: int, nominal: int, hz: int)
    ensures 2 * ((r * hz - ticks * nominal) * TWO32) ==
            2 * (hz * (r * TWO32 - ticks * scale)) + ticks * (2 * (scale * hz - nominal * TWO32))
  {
    assert hz * (r * TWO32 - ticks * scale) == (r * hz) * TWO32 - hz * (ticks * scale);
    assert ticks * (2 * (scale * hz - nominal * TWO32)) == 2 * (ticks * (scale * hz)) - 2 * ((ticks * nominal) * TWO32);
    assert hz * (ticks * scale) == ticks * (scale * hz);
  }

  lemma Bounded(error: int, x: int, y: int, ticks: int, hz: int)
    requires 2 * (error * TWO32) == 2 * (hz * x) + ticks * y && hz > 0
    requires -TWO31 <= x <= TWO31 && -hz <= y <= hz && 0 <= ticks < TWO32
    ensures -hz < error < hz
  {
    Scaled(hz, x, TWO31);
    Scaled(hz, -TWO31, x);
    Scaled(ticks, y, hz);
    Scaled(ticks, -hz, y);
    Scaled(hz, ticks, TWO32 - 1);
    assert ticks * -hz == -(ticks * hz) && ticks * hz == hz * ticks;
  }

  lemma Scaled(k: nat, a: int, b: int)
    requires a <= b
    ensures k * a <= k * b
  {
  }

  // ---- the remembered seconds ----

  /** find_span_by_seq: the newest remembered second with this number. */
  function FindSeq(spans: seq<Span>, number: u32): Option<Span> {
    if |spans| == 0 then None
    else if spans[|spans| - 1].seqNo == number then Some(spans[|spans| - 1])
    else FindSeq(spans[..|spans| - 1], number)
  }

  function TicksOf(v: Seconds, number: u32): Option<u32> {
    match FindSeq(v.spans, number)
    case None => None
    case Some(e) => Some(e.ticks)
  }

  /** find_scale_by_seq: the second in progress takes precedence. */
  function ScaleOf(v: Seconds, number: u32): Option<u64> {
    if number == v.seqNo && v.primed then Some(v.scale)
    else
      match FindSeq(v.spans, number)
      case None => None
      case Some(e) => Some(e.scale)
  }

  function FindTick(spans: seq<Span>, edge: u32): Option<Stamp> {
    if |spans| == 0 then None
    else
      var e := spans[|spans| - 1];
      if Sub32(edge, e.start) < e.ticks then Some(Stamp(e.seqNo, Sub32(edge, e.start)))
      else FindTick(spans[..|spans| - 1], edge)
  }

  /** ppsAdjustTagTick */
  function TagOf(v: Seconds, edge: u32): Option<Stamp> {
    if !v.primed then None
    else if FindTick(v.spans, edge).Some? then FindTick(v.spans, edge)
    else if Sub32(edge, v.start) <= Wrap32(2 * v.nominal) then Some(Stamp(v.seqNo, Sub32(edge, v.start)))
    else None
  }

  /** Number of the i-th remembered second, or of the one in progress when i is one past. */
  function SeqAt(v: Seconds, i: nat): u32
    requires i <= |v.spans|
  {
    Wrap32(v.seqNo - |v.spans| + i)
  }

  function StartAt(v: Seconds, i: nat): u32
    requires i <= |v.spans|
  {
    if i < |v.spans| then v.spans[i].start else v.start
  }

  function HzAt(v: Seconds, i: nat): u32
    requires i <= |v.spans|
  {
    if i < |v.spans| then v.spans[i].hz else v.hz
  }

  function ScaleAt(v: Seconds, i: nat): u64
    requires i <= |v.spans|
  {
    if i < |v.spans| then v.spans[i].scale else v.scale
  }

  /** Numbers count up by one and each second ends where the next begins. */
  predicate Contiguous(v: Seconds) {
    && v.primed
    && (forall i :: 0 <= i < |v.spans| ==> v.spans[i].seqNo == SeqAt(v, i))
    && (forall i :: 0 <= i < |v.spans| ==> Wrap32(v.spans[i].start + v.spans[i].ticks) == StartAt(v, i + 1))
  }

  predicate Scaled32(v: Seconds) {
    && v.nominal > 0
    && forall i :: 0 <= i <= |v.spans| ==> HzAt(v, i) > 0 && ScaleAt(v, i) == ScaleQ32(v.nominal, HzAt(v, i))
  }

  /** True start of the i-th second, when the one in progress began at `now`. */
  function Begin(v: Seconds, now: int, i: nat): int
    requires i <= |v.spans|
    decreases |v.spans| - i
  {
    if i == |v.spans| then now else Begin(v, now, i + 1) - v.spans[i].ticks
  }

  lemma {:induction false} BeginWraps(v: Seconds, now: int, i: nat)
    requires Contiguous(v) && Wrap32(now) == v.start && i <= |v.spans|
    ensures Wrap32(Begin(v, now, i)) == StartAt(v, i)
    decreases |v.spans| - i
  {
    hide Wrap32, SeqAt;
    if i < |v.spans| {
      BeginWraps(v, now, i + 1);
      BackFrom(Begin(v, now, i + 1), v.spans[i].start, v.spans[i].ticks);
    }
  }

  lemma BackFrom(t: int, start: u32, ticks: u32)
    requires Wrap32(start + ticks) == Wrap32(t)
    ensures Wrap32(t - ticks) == start
  {
  }

  lemma {:induction false} BeginOrder(v: Seconds, now: int, i: nat, j: nat)
    requires i <= j <= |v.spans|
    ensures Begin(v, now, i) <= Begin(v, now, j)
    decreases j - i
  {
    if i < j {
      BeginOrder(v, now, i + 1, j);
    }
  }

  /** Below one turn of the clock, elapsed ticks tell which side of the start an edge is on. */
  lemma ElapsedIn(t: int, begin: int)
    requires AbsDiff(t, begin) < TWO32
    ensures Sub32(Wrap32(t), Wrap32(begin)) == if begin <= t then t - begin else t - begin + TWO32
  {
  }

  /** The second a true time falls in: the newest that has begun by then. */
  function SecondOf(v: Seconds, now: int, t: int, i: nat): (k: nat)
    requires i <= |v.spans|
    ensures k <= i && (Begin(v, now, 0) <= t ==> Begin(v, now, k) <= t)
    ensures k < i ==> t < Begin(v, now, k + 1)
  {
    if i == 0 || t >= Begin(v, now, i) then i else SecondOf(v, now, t, i - 1)
  }

  function StampIn(v: Seconds, now: int, t: int, k: nat): Stamp
    requires k <= |v.spans|
  {
    Stamp(SeqAt(v, k), Wrap32(t - Begin(v, now, k)))
  }

  lemma {:induction false} FindTickIsSecond(v: Seconds, now: int, t: int, i: nat)
    requires Contiguous(v) && Wrap32(now) == v.start && i <= |v.spans|
    requires Begin(v, now, 0) <= t < Begin(v, now, 0) + TWO32 && now < Begin(v, now, 0) + TWO32
    ensures FindTick(v.spans[..i], Wrap32(t)) ==
            if t < Begin(v, now, i) && i > 0 then Some(StampIn(v, now, t, SecondOf(v, now, t, i - 1))) else None
  {
    hide Wrap32, SeqAt, Contiguous, Sub32, StampIn, SecondOf, Begin;
    if i > 0 {
      FindTickIsSecond(v, now, t, i - 1);
      BeginOrder(v, now, 0, i - 1);
      BeginOrder(v, now, i - 1, i);
      BeginOrder(v, now, i, |v.spans|);
      BeginAtEnd(v, now);
      OneSecond(v, now, t, i - 1);
      assert v.spans[..i][..i - 1] == v.spans[..i - 1];
      SecondUnfolds(v, now, t, i - 1);
    }
  }

  lemma SecondUnfolds(v: Seconds, now: int, t: int, i: nat)
    requires i <= |v.spans| && Begin(v, now, 0) <= t
    ensures SecondOf(v, now, t, i) == if t >= Begin(v, now, i) then i else SecondOf(v, now, t, i - 1)
  {
  }

  lemma OneSecond(v: Seconds, now: int, t: int, i: nat)
    requires Contiguous(v) && Wrap32(now) == v.start && i < |v.spans| && AbsDiff(t, Begin(v, now, i)) < TWO32
    requires Begin(v, now, i + 1) <= t + TWO32
    ensures Sub32(Wrap32(t), v.spans[i].start) < v.spans[i].ticks <==> Begin(v, now, i) <= t < Begin(v, now, i + 1)
    ensures Begin(v, now, i) <= t < Begin(v, now, i + 1) ==>
      Stamp(v.spans[i].seqNo, Sub32(Wrap32(t), v.spans[i].start)) == StampIn(v, now, t, i)
  {
    hide Wrap32, SeqAt, Sub32;
    BeginWraps(v, now, i);
    ElapsedIn(t, Begin(v, now, i));
    Elapsed(t, Begin(v, now, i));
  }

  lemma Elapsed(t: int, begin: int)
    ensures Sub32(Wrap32(t), Wrap32(begin)) == Wrap32(t - begin)
  {
  }

  /** The stamp names the k-th second and a true time inside it. */
  predicate Names(v: Seconds, now: int, stamp: Stamp, t: int, k: nat)
    requires k <= |v.spans|
  {
    && Begin(v, now, k) <= t && (k < |v.spans| ==> t < Begin(v, now, k + 1))
    && stamp.seqNo == SeqAt(v, k) && stamp.offset == t - Begin(v, now, k)
  }

  /** While the remembered seconds and the open window fit in one turn of the clock, an edge
      within a turn of the oldest second is tagged exactly when it is covered, and the tag
      names the second it falls in and its true offset. */
  lemma TagIsExact(v: Seconds, now: int, t: int)
    requires Contiguous(v) && Wrap32(now) == v.start && 2 * v.nominal < TWO32
    requires now + 2 * v.nominal < Begin(v, now, 0) + TWO32
    requires Begin(v, now, 0) <= t < Begin(v, now, 0) + TWO32
    ensures TagOf(v, Wrap32(t)).Some? <==> t <= now + 2 * v.nominal
    ensures TagOf(v, Wrap32(t)).Some? ==> var k := SecondOf(v, now, t, |v.spans|);
      Names(v, now, TagOf(v, Wrap32(t)).value, t, k)
  {
    hide Wrap32, SeqAt, Sub32, SecondOf, FindTick, Contiguous, TagOf, Names, Begin;
    BeginAtEnd(v, now);
    BeginOrder(v, now, 0, |v.spans|);
    if t < now {
      TagInPast(v, now, t);
    } else {
      TagInPresent(v, now, t);
    }
  }

  lemma BeginAtEnd(v: Seconds, now: int)
    ensures Begin(v, now, |v.spans|) == now
  {
  }

  lemma PastStamp(v: Seconds, now: int, t: int) returns (k: nat)
    requires Contiguous(v) && Wrap32(now) == v.start
    requires Begin(v, now, 0) <= t < now < Begin(v, now, 0) + TWO32
    ensures k < |v.spans| && k == SecondOf(v, now, t, |v.spans|)
    ensures TagOf(v, Wrap32(t)) == Some(StampIn(v, now, t, k))
  {
    var n := |v.spans|;
    assert v.primed && v.spans[..n] == v.spans;
    hide Wrap32, SeqAt, Sub32, SecondOf, FindTick, Contiguous, StampIn, TagOf, Begin;
    BeginAtEnd(v, now);
    k := SecondOf(v, now, t, n - 1);
    SecondUnfolds(v, now, t, n);
    FindTickIsSecond(v, now, t, n);
    FoundIsTag(v, Wrap32(t), StampIn(v, now, t, k));
  }

  lemma TagInPast(v: Seconds, now: int, t: int)
    requires Contiguous(v) && Wrap32(now) == v.start
    requires Begin(v, now, 0) <= t < now < Begin(v, now, 0) + TWO32
    ensures TagOf(v, Wrap32(t)).Some? && Names(v, now, TagOf(v, Wrap32(t)).value, t, SecondOf(v, now, t, |v.spans|))
  {
    hide Wrap32, SeqAt, SecondOf, Contiguous, Names, StampIn, TagOf, Begin;
    var k := PastStamp(v, now, t);
    SecondUnfolds(v, now, t, |v.spans|);
    StampNames(v, now, t, k);
  }

  lemma FoundIsTag(v: Seconds, edge: u32, stamp: Stamp)
    requires v.primed && FindTick(v.spans, edge) == Some(stamp)
    ensures TagOf(v, edge) == Some(stamp)
  {
  }

  lemma StampNames(v: Seconds, now: int, t: int, k: nat)
    requires k <= |v.spans| && Begin(v, now, k) <= t < Begin(v, now, 0) + TWO32
    requires k < |v.spans| ==> t < Begin(v, now, k + 1)
    ensures Names(v, now, StampIn(v, now, t, k), t, k)
  {
    hide Wrap32, SeqAt;
    BeginOrder(v, now, 0, k);
    Small(t - Begin(v, now, k));
  }

  lemma TagInPresent(v: Seconds, now: int, t: int)
    requires Contiguous(v) && Wrap32(now) == v.start && 2 * v.nominal < TWO32
    requires Begin(v, now, 0) <= now <= t < Begin(v, now, 0) + TWO32
    ensures TagOf(v, Wrap32(t)).Some? <==> t <= now + 2 * v.nominal
    ensures TagOf(v, Wrap32(t)).Some? ==> Names(v, now, TagOf(v, Wrap32(t)).value, t, SecondOf(v, now, t, |v.spans|))
  {
    var n := |v.spans|;
    assert v.primed && v.spans[..n] == v.spans;
    hide Wrap32, SeqAt, Sub32, SecondOf, FindTick, Contiguous, TagOf, Names, StampIn;
    FindTickIsSecond(v, now, t, n);
    BeginAtEnd(v, now);
    SecondUnfolds(v, now, t, n);
    ElapsedIn(t, now);
    OpenTag(v, Wrap32(t));
    StampNames(v, now, t, n);
    StampInOpen(v, now, t);
  }

  /** An edge in no remembered second is tagged with the one in progress, up to two nominal
      seconds after it began. */
  lemma OpenTag(v: Seconds, edge: u32)
    requires v.primed && FindTick(v.spans, edge).None? && 2 * v.nominal < TWO32
    ensures TagOf(v, edge) ==
            if Sub32(edge, v.start) <= 2 * v.nominal then Some(Stamp(v.seqNo, Sub32(edge, v.start))) else None
  {
    hide Sub32, FindTick;
  }

  lemma StampInOpen(v: Seconds, now: int, t: int)
    requires now <= t < now + TWO32
    ensures StampIn(v, now, t, |v.spans|) == Stamp(v.seqNo, t - now)
  {
    SeqAtEnd(v);
    Small(t - now);
  }

  lemma SeqAtEnd(v: Seconds)
    ensures SeqAt(v, |v.spans|) == v.seqNo
  {
  }

  lemma Small(x: int)
    requires 0 <= x < TWO32
    ensures Wrap32(x) == x
  {
  }

  // ---- converting an interval ----

  /** Raw ticks the i-th turn of the conversion loop charges to its second. */
  function SegmentAt(v: Seconds, start: Stamp, end: Stamp, raw: u32, i: nat): Option<u32> {
    var delta := Sub32(end.seqNo, start.seqNo);
    var span := TicksOf(v, Wrap32(start.seqNo + i));
    if delta == 0 then Some(raw)
    else if i == 0 then if span.None? || start.offset > span.value then None else Some(span.value - start.offset)
    else if i == delta then Some(end.offset)
    else span
  }

  /** The conversion from turn i on, with this much left to charge; None is the fallback. */
  function Walk(v: Seconds, start: Stamp, end: Stamp, raw: u32, i: nat, remaining: u32, total: nat): Option<u32>
    requires i <= Sub32(end.seqNo, start.seqNo) + 1
    decreases Sub32(end.seqNo, start.seqNo) + 1 - i
  {
    if i > Sub32(end.seqNo, start.seqNo) then
      if remaining != 0 then None else Some(Min(total, 0xFFFF_FFFF))
    else
      var segment, scale := SegmentAt(v, start, end, raw, i), ScaleOf(v, Wrap32(start.seqNo + i));
      if segment.None? || scale.None? then None
      else
        var ticks := Min(segment.value, remaining);
        Walk(v, start, end, raw, i + 1, remaining - ticks, total + Term(ticks, scale.value))
  }

  /** ppsAdjustIntervalToNominalTicks; None when the raw interval is returned unconverted. */
  function Convert(v: Seconds, start: Stamp, end: Stamp, raw: u32): Option<u32> {
    Walk(v, start, end, raw, 0, raw, 0)
  }

  datatype Piece = Piece(ticks: u32, hz: u32)

  /** The true pieces of an interval from offset a in second i to offset b in second j. */
  function Pieces(v: Seconds, i: nat, a: u32, j: nat, b: u32): (ps: seq<Piece>)
    requires i <= j <= |v.spans| && (i == j ==> a <= b) && (i < j ==> a <= v.spans[i].ticks)
    ensures |ps| == j - i + 1
    decreases j - i
  {
    if i == j then [Piece(b - a, HzAt(v, j))]
    else [Piece(v.spans[i].ticks - a, HzAt(v, i))] + Pieces(v, i + 1, 0, j, b)
  }

  function SumTicks(ps: seq<Piece>): nat {
    if |ps| == 0 then 0 else ps[0].ticks + SumTicks(ps[1..])
  }

  /** Each piece rounded on its own, as the loop adds them. */
  function Total(nominal: u32, ps: seq<Piece>): nat
    requires nominal > 0
  {
    if |ps| == 0 then 0 else Term(ps[0].ticks, ScaleQ32(nominal, ps[0].hz)) + Total(nominal, ps[1..])
  }

  /** The exact sum of ticks * nominal / hz. */
  ghost function Exact(nominal: u32, ps: seq<Piece>): real
    requires forall i :: 0 <= i < |ps| ==> ps[i].hz > 0
  {
    if |ps| == 0 then 0.0
    else (ps[0].ticks * nominal) as real / ps[0].hz as real + Exact(nominal, ps[1..])
  }

  /** The pieces are all of the interval: they sum to the true elapsed ticks. */
  lemma {:induction false} PiecesSumToElapsed(v: Seconds, now: int, i: nat, a: u32, j: nat, b: u32)
    requires i <= j <= |v.spans| && (i == j ==> a <= b) && (i < j ==> a <= v.spans[i].ticks)
    ensures SumTicks(Pieces(v, i, a, j, b)) == (Begin(v, now, j) + b) - (Begin(v, now, i) + a)
    decreases j - i
  {
    if i < j {
      PiecesSumToElapsed(v, now, i + 1, 0, j, b);
    }
  }

  /** Within (boundaries crossed + 1) ticks of the exact sum, while no product overflows. */
  lemma {:induction false} TotalWithinOneTickEach(nominal: u32, ps: seq<Piece>)
    requires nominal > 0 && |ps| > 0
    requires forall i :: 0 <= i < |ps| ==> ps[i].hz > 0 && Fits(ps[i].ticks, ScaleQ32(nominal, ps[i].hz))
    ensures -(|ps| as real) < Total(nominal, ps) as real - Exact(nominal, ps) < |ps| as real
  {
    hide Term, ScaleQ32, Fits;
    var p := ps[0];
    TermWithinOneTick(p.ticks, nominal, p.hz);
    RealError(Term(p.ticks, ScaleQ32(nominal, p.hz)), p.ticks * nominal, p.hz);
    var rest := ps[1..];
    if |ps| > 1 {
      TotalWithinOneTickEach(nominal, rest);
    } else {
      assert Total(nominal, rest) == 0 && Exact(nominal, rest) == 0.0;
    }
    AddReals(Term(p.ticks, ScaleQ32(nominal, p.hz)), Total(nominal, rest), |rest|,
             (p.ticks * nominal) as real / p.hz as real, Exact(nominal, rest));
    assert Total(nominal, ps) == Term(p.ticks, ScaleQ32(nominal, p.hz)) + Total(nominal, rest);
    assert Exact(nominal, ps) == (p.ticks * nominal) as real / p.hz as real + Exact(nominal, rest);
  }

  predicate AllFit(nominal: u32, ps: seq<Piece>)
    requires nominal > 0
  {
    forall i :: 0 <= i < |ps| ==> Fits(ps[i].ticks, ScaleQ32(nominal, ps[i].hz))
  }

  lemma ErrorBounds(r: int, nearest: int, exact: real, fits: bool)
    requires -1.0 < nearest as real - exact < 1.0
    requires if fits then r == nearest else r <= nearest - TWO32 && nearest >= TWO32
    ensures r as real - exact < if fits then 1.0 else -4294967295.0
    ensures !fits ==> exact > 4294967295.0
  {
  }

  /** No piece is ever high by a tick, and one that does not fit is low by almost 2^32. */
  lemma PieceError(ticks: u32, nominal: u32, hz: u32)
    requires nominal > 0 && hz > 0
    ensures var error := Term(ticks, ScaleQ32(nominal, hz)) as real - (ticks * nominal) as real / hz as real;
      error < if Fits(ticks, ScaleQ32(nominal, hz)) then 1.0 else -4294967295.0
    ensures !Fits(ticks, ScaleQ32(nominal, hz)) ==> (ticks * nominal) as real / hz as real > 4294967295.0
  {
    hide Nearest, Term, ScaleQ32, Fits;
    var scale := ScaleQ32(nominal, hz);
    var nearest := Nearest(ticks * scale);
    TermIsNearest(ticks, scale);
    NearestWithinOneTick(ticks, nominal, hz);
    RealError(nearest, ticks * nominal, hz);
    if !Fits(ticks, scale) {
      WrappedBelow(Term(ticks, scale), nearest, hz);
    }
    ErrorBounds(Term(ticks, scale), nearest, (ticks * nominal) as real / hz as real, Fits(ticks, scale));
  }

  lemma {:induction false} TotalError(nominal: u32, ps: seq<Piece>)
    requires nominal > 0 && forall i :: 0 <= i < |ps| ==> ps[i].hz > 0
    ensures Total(nominal, ps) as real - Exact(nominal, ps) <=
            |ps| as real - if AllFit(nominal, ps) then 0.0 else 4294967296.0
    ensures Exact(nominal, ps) >= if AllFit(nominal, ps) then 0.0 else 4294967295.0
    decreases |ps|
  {
    hide Term, ScaleQ32, Fits;
    if |ps| > 0 {
      var p, rest := ps[0], ps[1..];
      PieceError(p.ticks, nominal, p.hz);
      NotNegative(p.ticks * nominal, p.hz);
      TotalError(nominal, rest);
      assert AllFit(nominal, ps) <==> Fits(p.ticks, ScaleQ32(nominal, p.hz)) && AllFit(nominal, rest) by {
        assert ps == [p] + rest;
      }
      assert Total(nominal, ps) == Term(p.ticks, ScaleQ32(nominal, p.hz)) + Total(nominal, rest);
      assert Exact(nominal, ps) == (p.ticks * nominal) as real / p.hz as real + Exact(nominal, rest);
    }
  }

  lemma NotNegative(e: nat, hz: nat)
    requires hz > 0
    ensures e as real / hz as real >= 0.0
  {
  }

  /** The sum is within one tick a piece of the exact one exactly when no product wraps; and
      a product wraps only where the exact sum is beyond 32 bits. */
  lemma TotalIsAccurateIffAllFit(nominal: u32, ps: seq<Piece>)
    requires nominal > 0 && 0 < |ps| <= TWO31 && forall i :: 0 <= i < |ps| ==> ps[i].hz > 0
    ensures AllFit(nominal, ps) <==> -(|ps| as real) < Total(nominal, ps) as real - Exact(nominal, ps) < |ps| as real
    ensures !AllFit(nominal, ps) ==> Exact(nominal, ps) >= 4294967295.0
  {
    hide Term, ScaleQ32, Fits, Total, Exact;
    TotalError(nominal, ps);
    if AllFit(nominal, ps) {
      TotalWithinOneTickEach(nominal, ps);
    }
  }

  lemma AddReals(a: int, b: int, n: int, x: real, y: real)
    requires -1.0 < a as real - x < 1.0
    requires if n == 0 then b as real == y else -(n as real) < b as real - y < n as real
    ensures -((n + 1) as real) < (a + b) as real - (x + y) < (n + 1) as real
  {
  }

  lemma RealError(r: int, exact: int, hz: int)
    requires hz > 0 && AbsDiff(r * hz, exact) < hz
    ensures -1.0 < r as real - exact as real / hz as real < 1.0
  {
    ProductAsReal(r, hz);
    Fraction(r as real, exact as real, hz as real);
  }

  lemma ProductAsReal(a: int, b: int)
    ensures (a * b) as real == a as real * b as real
  {
  }

  lemma Fraction(r: real, e: real, h: real)
    requires h > 0.0 && -h < r * h - e < h
    ensures -1.0 < r - e / h < 1.0
  {
    Near(r, e / h, e, h);
  }

  lemma Near(r: real, q: real, e: real, h: real)
    requires h > 0.0 && q * h == e && -h < r * h - e < h
    ensures -1.0 < r - q < 1.0
  {
    Distributes(r, q, h);
    Unit(r - q, (r - q) * h, h);
  }

  lemma Distributes(r: real, q: real, h: real)
    ensures (r - q) * h == r * h - q * h
  {
  }

  lemma Unit(d: real, p: real, h: real)
    requires h > 0.0 && p == d * h && -h < p < h
    ensures -1.0 < d < 1.0
  {
  }

  /** At the nominal rate conversion changes nothing. */
  lemma {:induction false} NominalRateIsIdentity(nominal: u32, ps: seq<Piece>)
    requires nominal > 0 && forall i :: 0 <= i < |ps| ==> ps[i].hz == nominal
    ensures Total(nominal, ps) == SumTicks(ps)
  {
    hide Term, ScaleQ32;
    if |ps| > 0 {
      UnitScale(nominal, ps[0].ticks);
      NominalRateIsIdentity(nominal, ps[1..]);
    }
  }

  lemma UnitScale(nominal: u32, ticks: u32)
    requires nominal > 0
    ensures Term(ticks, ScaleQ32(nominal, nominal)) == ticks
  {
    hide Term;
    QuotientIs(nominal * TWO32 + nominal / 2, nominal, TWO32);
    assert ScaleQ32(nominal, nominal) == TWO32;
    UnitTerm(ticks);
  }

  lemma UnitTerm(ticks: u32)
    ensures Term(ticks, TWO32) == ticks
  {
  }

  lemma QuotientIs(a: nat, b: nat, q: nat)
    requires b > 0 && q * b <= a < q * b + b
    ensures Quotient(a, b) == q
  {
    var r := Quotient(a, b);
    if r < q {
      Scaled(b, r + 1, q);
    } else if r > q {
      Scaled(b, q + 1, r);
    }
  }

  // ---- the loop computes the pieces ----

  lemma SeqDistinct(v: Seconds, i: nat, l: nat)
    requires i < l <= |v.spans| < TWO32
    ensures SeqAt(v, i) != SeqAt(v, l)
    ensures Sub32(SeqAt(v, l), SeqAt(v, i)) == l - i && Wrap32(SeqAt(v, i) + (l - i)) == SeqAt(v, l)
  {
    Distance(v.seqNo - |v.spans| + i, l - i);
  }

  lemma Distance(x: int, d: nat)
    requires d < TWO32
    ensures Sub32(Wrap32(x + d), Wrap32(x)) == d && Wrap32(Wrap32(x) + d) == Wrap32(x + d)
    ensures d > 0 ==> Wrap32(x) != Wrap32(x + d)
  {
    hide Wrap32, Sub32;
    Elapsed(x + d, x);
    Small(d);
    WrapInner(x, d);
    Small(0);
    Elapsed(x, x);
  }

  lemma WrapInner(x: int, d: int)
    ensures Wrap32(Wrap32(x) + d) == Wrap32(x + d)
  {
  }

  lemma {:induction false} FindSeqAt(v: Seconds, i: nat, m: nat)
    requires Contiguous(v) && |v.spans| < TWO32 && i < m <= |v.spans|
    ensures FindSeq(v.spans[..m], SeqAt(v, i)) == Some(v.spans[i])
  {
    hide SeqAt;
    assert v.spans[..m][..m - 1] == v.spans[..m - 1];
    if i < m - 1 {
      SeqDistinct(v, i, m - 1);
      FindSeqAt(v, i, m - 1);
    }
  }

  lemma SecondIsFound(v: Seconds, i: nat)
    requires Contiguous(v) && |v.spans| < TWO32 && i <= |v.spans|
    ensures i < |v.spans| ==> TicksOf(v, SeqAt(v, i)) == Some(v.spans[i].ticks)
    ensures ScaleOf(v, SeqAt(v, i)) == Some(ScaleAt(v, i))
  {
    assert v.primed;
    hide SeqAt, FindSeq, Contiguous;
    SeqAtEnd(v);
    if i < |v.spans| {
      assert v.spans[..|v.spans|] == v.spans;
      FindSeqAt(v, i, |v.spans|);
      SeqDistinct(v, i, |v.spans|);
    }
  }

  /** An interval from offset a in second i to offset b in second j. */
  predicate Interval(v: Seconds, i: nat, a: u32, j: nat, b: u32) {
    && v.nominal > 0
    && i <= j <= |v.spans| && (i == j ==> a <= b) && (i < j ==> a <= v.spans[i].ticks)
  }

  /** Its ends carry the stamps of a contiguous record of seconds. */
  predicate Tagged(v: Seconds, i: nat, a: u32, j: nat, b: u32) {
    Interval(v, i, a, j, b) && Contiguous(v) && Scaled32(v) && |v.spans| < TWO32
  }

  function From(i: nat, a: u32, k: nat): u32 {
    if k == 0 then a else 0
  }

  /** Turn k charges the k-th piece, at its rate. */
  predicate TurnIsPiece(v: Seconds, i: nat, a: u32, j: nat, b: u32, raw: u32, k: nat)
    requires Interval(v, i, a, j, b) && i + k <= j
  {
    var piece := Pieces(v, i + k, From(i, a, k), j, b)[0];
    && SegmentAt(v, Stamp(SeqAt(v, i), a), Stamp(SeqAt(v, j), b), raw, k) == Some(piece.ticks)
    && ScaleOf(v, Wrap32(SeqAt(v, i) + k)) == Some(ScaleQ32(v.nominal, piece.hz))
  }

  lemma SegmentIsPiece(v: Seconds, i: nat, a: u32, j: nat, b: u32, raw: u32, k: nat)
    requires Tagged(v, i, a, j, b) && i + k <= j && (i == j ==> raw == b - a)
    ensures TurnIsPiece(v, i, a, j, b, raw, k)
  {
    hide SeqAt, Wrap32, Contiguous, ScaleOf, TicksOf, ScaleQ32;
    SecondIsFound(v, i + k);
    SeqStep(v, i, k);
    SeqStep(v, i, j - i);
  }

  lemma SeqStep(v: Seconds, i: nat, k: nat)
    requires i + k <= |v.spans| < TWO32
    ensures Wrap32(SeqAt(v, i) + k) == SeqAt(v, i + k) && Sub32(SeqAt(v, i + k), SeqAt(v, i)) == k
  {
    Distance(v.seqNo - |v.spans| + i, k);
  }

  predicate WalkedFrom(v: Seconds, i: nat, a: u32, j: nat, b: u32, raw: u32, k: nat, remaining: u32, total: nat)
    requires Interval(v, i, a, j, b) && i + k <= j && Sub32(SeqAt(v, j), SeqAt(v, i)) == j - i
  {
    Walk(v, Stamp(SeqAt(v, i), a), Stamp(SeqAt(v, j), b), raw, k, remaining, total) ==
    Some(Min(total + Total(v.nominal, Pieces(v, i + k, From(i, a, k), j, b)), 0xFFFF_FFFF))
  }

  lemma {:induction false} WalkAddsPieces(v: Seconds, i: nat, a: u32, j: nat, b: u32, raw: u32, k: nat, remaining: u32,
                                          total: nat)
    requires Tagged(v, i, a, j, b) && i + k <= j && raw == SumTicks(Pieces(v, i, a, j, b))
    requires remaining == SumTicks(Pieces(v, i + k, From(i, a, k), j, b))
    requires Sub32(SeqAt(v, j), SeqAt(v, i)) == j - i
    ensures WalkedFrom(v, i, a, j, b, raw, k, remaining, total)
    decreases j - i - k
  {
    hide SeqAt, Wrap32, Sub32, SegmentAt, ScaleOf, ScaleQ32, Contiguous, Term;
    SegmentIsPiece(v, i, a, j, b, raw, k);
    var ps := Pieces(v, i + k, From(i, a, k), j, b);
    var t := Term(ps[0].ticks, ScaleQ32(v.nominal, ps[0].hz));
    if i + k < j {
      assert ps[1..] == Pieces(v, i + k + 1, 0, j, b);
      WalkAddsPieces(v, i, a, j, b, raw, k + 1, remaining - ps[0].ticks, total + t);
    } else {
      assert SumTicks(ps[1..]) == 0 && Total(v.nominal, ps[1..]) == 0;
      assert Walk(v, Stamp(SeqAt(v, i), a), Stamp(SeqAt(v, j), b), raw, k + 1, 0, total + t) ==
             Some(Min(total + t, 0xFFFF_FFFF));
    }
  }

  /** An interval between two tagged edges is converted, piece by piece. */
  lemma TaggedIntervalConverts(v: Seconds, now: int, i: nat, a: u32, j: nat, b: u32, raw: u32)
    requires Tagged(v, i, a, j, b) && raw == (Begin(v, now, j) + b) - (Begin(v, now, i) + a)
    ensures Convert(v, Stamp(SeqAt(v, i), a), Stamp(SeqAt(v, j), b), raw) ==
            Some(Min(Total(v.nominal, Pieces(v, i, a, j, b)), 0xFFFF_FFFF))
  {
    hide SeqAt, Wrap32, Walk;
    PiecesSumToElapsed(v, now, i, a, j, b);
    SeqStep(v, i, j - i);
    WalkAddsPieces(v, i, a, j, b, raw, 0, raw, 0);
  }

  // ---- splitting an interval ----

  /** Turns of 2^32 ticks the wrapped 64-bit product loses; none exactly when it fits. */
  function Lost(ticks: u32, scale: u64): (turns: int)
    ensures turns >= 0 && (turns == 0 <==> Fits(ticks, scale))
    ensures Term(ticks, scale) == Nearest(ticks * scale) - turns * TWO32
  {
    TermIsNearest(ticks, scale);
    Nearest(ticks * scale) / TWO32
  }

  predicate LosesAlike(x: u32, y: u32, scale: u64)
    requires x + y < TWO32
  {
    Lost(x, scale) + Lost(y, scale) == Lost(x + y, scale)
  }

  /** Two parts of a segment are within one tick of the whole exactly when they lose as many
      turns as it does; in particular when the whole fits. */
  lemma TermSplits(x: u32, y: u32, scale: u64)
    requires x + y < TWO32
    ensures LosesAlike(x, y, scale) <==> AbsDiff(Term(x, scale) + Term(y, scale), Term(x + y, scale)) <= 1
    ensures Fits(x + y, scale) ==> LosesAlike(x, y, scale)
  {
    hide Term, Fits, Nearest;
    RoundingSplits(x * scale, y * scale, (x + y) * scale);
    SplitTurns(Lost(x, scale), Lost(y, scale), Lost(x + y, scale), Nearest(x * scale), Nearest(y * scale),
               Nearest((x + y) * scale));
    if Fits(x + y, scale) {
      FitsParts(x, y, scale);
    }
  }

  lemma SplitTurns(a: int, b: int, c: int, x: int, y: int, z: int)
    requires AbsDiff(x + y, z) <= 1
    ensures a + b == c <==> AbsDiff(x - a * TWO32 + (y - b * TWO32), z - c * TWO32) <= 1
  {
  }

  lemma FitsParts(x: u32, y: u32, scale: u64)
    requires x + y < TWO32 && Fits(x + y, scale)
    ensures Fits(x, scale) && Fits(y, scale)
  {
    assert (x + y) * scale == x * scale + y * scale && x * scale >= 0 && y * scale >= 0;
  }

  lemma RoundingSplits(p: int, q: int, sum: int)
    requires sum == p + q
    ensures AbsDiff(Nearest(p) + Nearest(q), Nearest(sum)) <= 1
  {
  }

  /** Second k of an interval from offset a in second i to offset b in second j, when it is
      split there at offset c: the ticks before and after. */
  predicate SplitAt(v: Seconds, i: nat, a: u32, k: nat, c: u32, j: nat, b: u32) {
    Interval(v, i, a, k, c) && Interval(v, k, c, j, b)
  }

  function Before(i: nat, a: u32, k: nat, c: u32): int
    requires i <= k
  {
    c - From(i, a, k - i)
  }

  function After(v: Seconds, k: nat, c: u32, j: nat, b: u32): int
    requires k <= j <= |v.spans|
  {
    (if k < j then v.spans[k].ticks else b) - c
  }

  /** Only the pieces of the split second decide what splitting costs. */
  lemma {:induction false} TotalSplits(v: Seconds, i: nat, a: u32, k: nat, c: u32, j: nat, b: u32)
    returns (x: u32, y: u32)
    requires SplitAt(v, i, a, k, c, j, b)
    ensures x == Before(i, a, k, c) && y == After(v, k, c, j, b) && x + y < TWO32
    ensures var scale := ScaleQ32(v.nominal, HzAt(v, k));
      Total(v.nominal, Pieces(v, i, a, k, c)) + Total(v.nominal, Pieces(v, k, c, j, b))
      - Total(v.nominal, Pieces(v, i, a, j, b)) == Term(x, scale) + Term(y, scale) - Term(x + y, scale)
    decreases k - i
  {
    hide Term, ScaleQ32;
    var whole := Pieces(v, i, a, j, b);
    if i < k {
      assert whole[1..] == Pieces(v, i + 1, 0, j, b);
      assert Pieces(v, i, a, k, c)[1..] == Pieces(v, i + 1, 0, k, c);
      x, y := TotalSplits(v, i + 1, 0, k, c, j, b);
    } else {
      var right := Pieces(v, k, c, j, b);
      x, y := c - a, right[0].ticks;
      assert Pieces(v, i, a, k, c) == [Piece(x, HzAt(v, k))];
      assert whole[0] == Piece(x + y, HzAt(v, k)) && whole[1..] == right[1..];
    }
  }

  // ---- what a caller may rely on ----

  lemma RatesArePositive(v: Seconds, i: nat, a: u32, j: nat, b: u32)
    requires Interval(v, i, a, j, b) && Scaled32(v)
    ensures forall p :: p in Pieces(v, i, a, j, b) ==> p.hz > 0
    decreases j - i
  {
    hide ScaleQ32;
    assert HzAt(v, i) > 0;
    if i < j {
      RatesArePositive(v, i + 1, 0, j, b);
    }
  }

  /** The result is the sum of the pieces, saturated; and unsaturated it is within (boundaries
      crossed + 1) ticks of the exact sum if and only if no 64-bit product wraps. */
  ghost predicate Accurate(v: Seconds, i: nat, a: u32, j: nat, b: u32, r: Option<u32>)
    requires Interval(v, i, a, j, b) && Scaled32(v)
  {
    RatesArePositive(v, i, a, j, b);
    var ps := Pieces(v, i, a, j, b);
    && r == Some(Min(Total(v.nominal, ps), 0xFFFF_FFFF))
    && (r.value < 0xFFFF_FFFF ==>
          (AllFit(v.nominal, ps) <==>
           -((j - i + 1) as real) < r.value as real - Exact(v.nominal, ps) < (j - i + 1) as real))
  }

  lemma ConversionIsAccurate(v: Seconds, now: int, i: nat, a: u32, j: nat, b: u32, raw: u32)
    requires Tagged(v, i, a, j, b) && raw == (Begin(v, now, j) + b) - (Begin(v, now, i) + a) && j - i < TWO31
    ensures Accurate(v, i, a, j, b, Convert(v, Stamp(SeqAt(v, i), a), Stamp(SeqAt(v, j), b), raw))
  {
    hide SeqAt, Convert, Pieces, Total, Exact, Fits, ScaleQ32, Contiguous, AllFit;
    RatesArePositive(v, i, a, j, b);
    TaggedIntervalConverts(v, now, i, a, j, b, raw);
    TotalIsAccurateIffAllFit(v.nominal, Pieces(v, i, a, j, b));
  }

  lemma {:induction false} SecondOfLater(v: Seconds, now: int, t1: int, t2: int, i: nat)
    requires i <= |v.spans| && t1 <= t2
    ensures SecondOf(v, now, t1, i) <= SecondOf(v, now, t2, i)
  {
    if i > 0 && t2 < Begin(v, now, i) {
      SecondOfLater(v, now, t1, t2, i - 1);
    }
  }

  /** The true edge times that are tagged, and lie within a turn of the oldest second. */
  predicate Covered(v: Seconds, now: int, t: int) {
    Begin(v, now, 0) <= t <= now + 2 * v.nominal
  }

  lemma NamesInOrder(v: Seconds, now: int, t1: int, t2: int, x: Stamp, y: Stamp)
    requires v.nominal > 0 && t1 <= t2
    requires Names(v, now, x, t1, SecondOf(v, now, t1, |v.spans|))
    requires Names(v, now, y, t2, SecondOf(v, now, t2, |v.spans|))
    ensures Interval(v, SecondOf(v, now, t1, |v.spans|), x.offset, SecondOf(v, now, t2, |v.spans|), y.offset)
  {
    SecondOfLater(v, now, t1, t2, |v.spans|);
    hide SecondOf, SeqAt;
    var i := SecondOf(v, now, t1, |v.spans|);
    if i < |v.spans| {
      assert Begin(v, now, i) == Begin(v, now, i + 1) - v.spans[i].ticks;
    }
  }

  lemma TagsOfEdges(v: Seconds, now: int, t1: int, t2: int) returns (i: nat, j: nat, x: Stamp, y: Stamp)
    requires Contiguous(v) && Wrap32(now) == v.start && v.nominal > 0
    requires 2 * v.nominal < TWO32 && now + 2 * v.nominal < Begin(v, now, 0) + TWO32
    requires Covered(v, now, t1) && Covered(v, now, t2) && t1 <= t2
    ensures TagOf(v, Wrap32(t1)) == Some(x) && TagOf(v, Wrap32(t2)) == Some(y) && Interval(v, i, x.offset, j, y.offset)
    ensures Names(v, now, x, t1, i) && Names(v, now, y, t2, j)
  {
    hide TagOf, SecondOf, SeqAt, Wrap32, Contiguous, Interval, Names, Begin;
    TagIsExact(v, now, t1);
    TagIsExact(v, now, t2);
    i, j := SecondOf(v, now, t1, |v.spans|), SecondOf(v, now, t2, |v.spans|);
    x, y := TagOf(v, Wrap32(t1)).value, TagOf(v, Wrap32(t2)).value;
    NamesInOrder(v, now, t1, t2, x, y);
  }

  /** Tagging two edges and converting the ticks between them: the tags name the seconds i
      and j the edges fall in, and the conversion is accurate in the sense above. */
  lemma TaggedEdgesConvert(v: Seconds, now: int, t1: int, t2: int) returns (i: nat, j: nat, x: Stamp, y: Stamp)
    requires Contiguous(v) && Scaled32(v) && Wrap32(now) == v.start && |v.spans| < TWO31
    requires 2 * v.nominal < TWO32 && now + 2 * v.nominal < Begin(v, now, 0) + TWO32
    requires Covered(v, now, t1) && Covered(v, now, t2) && t1 <= t2
    ensures TagOf(v, Wrap32(t1)) == Some(x) && TagOf(v, Wrap32(t2)) == Some(y) && Interval(v, i, x.offset, j, y.offset)
    ensures Names(v, now, x, t1, i) && Names(v, now, y, t2, j)
    ensures Accurate(v, i, x.offset, j, y.offset, Convert(v, x, y, t2 - t1))
  {
    assert v.nominal > 0;
    hide TagOf, SecondOf, SeqAt, Wrap32, Contiguous, Scaled32, Convert, Begin, Accurate;
    i, j, x, y := TagsOfEdges(v, now, t1, t2);
    assert x == Stamp(SeqAt(v, i), x.offset) && y == Stamp(SeqAt(v, j), y.offset);
    ConversionIsAccurate(v, now, i, x.offset, j, y.offset, t2 - t1);
  }

  /** Two conversions add up to a third, give or take one tick, if `alike`; and, where none
      of them saturates, only if `alike`. */
  predicate Splits(first: Option<u32>, second: Option<u32>, whole: Option<u32>, alike: bool) {
    && first.Some? && second.Some? && whole.Some?
    && (alike ==> AbsDiff(Min(first.value + second.value, 0xFFFF_FFFF), whole.value) <= 1)
    && (first.value < 0xFFFF_FFFF && second.value < 0xFFFF_FFFF && whole.value < 0xFFFF_FFFF ==>
          (alike <==> AbsDiff(first.value + second.value, whole.value) <= 1))
  }

  /** A true time is tagged with the k-th second and its true offset c there. */
  predicate TagIs(v: Seconds, now: int, t: int, k: nat, c: u32)
    requires k <= |v.spans|
  {
    TagOf(v, Wrap32(t)) == Some(Stamp(SeqAt(v, k), c)) && t == Begin(v, now, k) + c
  }

  /** Three covered edges at any true times: converting the ticks up to the middle one and from
      there on adds up to the whole conversion, give or take one tick, if the products of the
      split second lose alike; and, where nothing saturates, only if they do. */
  lemma SplittingCostsAtMostOneTick(v: Seconds, now: int, t1: int, t: int, t2: int)
    returns (i: nat, a: u32, k: nat, c: u32, j: nat, b: u32, x: u32, y: u32)
    requires Contiguous(v) && Scaled32(v) && Wrap32(now) == v.start && |v.spans| < TWO31
    requires 2 * v.nominal < TWO32 && now + 2 * v.nominal < Begin(v, now, 0) + TWO32
    requires Covered(v, now, t1) && Covered(v, now, t) && Covered(v, now, t2) && t1 <= t <= t2
    ensures SplitAt(v, i, a, k, c, j, b) && x == Before(i, a, k, c) && y == After(v, k, c, j, b) && x + y < TWO32
    ensures TagIs(v, now, t1, i, a) && TagIs(v, now, t, k, c) && TagIs(v, now, t2, j, b) && 0 <= t2 - t1 < TWO32
    ensures Splits(Convert(v, Stamp(SeqAt(v, i), a), Stamp(SeqAt(v, k), c), t - t1),
                   Convert(v, Stamp(SeqAt(v, k), c), Stamp(SeqAt(v, j), b), t2 - t),
                   Convert(v, Stamp(SeqAt(v, i), a), Stamp(SeqAt(v, j), b), t2 - t1),
                   LosesAlike(x, y, ScaleQ32(v.nominal, HzAt(v, k))))
  {
    hide TagOf, SeqAt, Wrap32, Contiguous, Scaled32, Convert, Begin, Covered, Before, After, Splits, LosesAlike,
         ScaleQ32;
    i, a, k, c, j, b := ThreeTags(v, now, t1, t, t2);
    x, y := SplitConversions(v, now, i, a, k, c, j, b);
  }

  lemma ThreeTags(v: Seconds, now: int, t1: int, t: int, t2: int)
    returns (i: nat, a: u32, k: nat, c: u32, j: nat, b: u32)
    requires Contiguous(v) && Scaled32(v) && Wrap32(now) == v.start && |v.spans| < TWO31
    requires 2 * v.nominal < TWO32 && now + 2 * v.nominal < Begin(v, now, 0) + TWO32
    requires Covered(v, now, t1) && Covered(v, now, t) && Covered(v, now, t2) && t1 <= t <= t2
    ensures SplitAt(v, i, a, k, c, j, b) && TagIs(v, now, t1, i, a) && TagIs(v, now, t, k, c) && TagIs(v, now, t2, j, b)
    ensures 0 <= t2 - t1 < TWO32
  {
    assert v.nominal > 0;
    BeginOrder(v, now, 0, |v.spans|);
    hide TagOf, SecondOf, SeqAt, Wrap32, Contiguous, Scaled32, Begin, Interval;
    TagIsExact(v, now, t1);
    TagIsExact(v, now, t);
    TagIsExact(v, now, t2);
    i, k := SecondOf(v, now, t1, |v.spans|), SecondOf(v, now, t, |v.spans|);
    j := SecondOf(v, now, t2, |v.spans|);
    var p, q, z := TagOf(v, Wrap32(t1)).value, TagOf(v, Wrap32(t)).value, TagOf(v, Wrap32(t2)).value;
    a, c, b := p.offset, q.offset, z.offset;
    NamesInOrder(v, now, t1, t, p, q);
    NamesInOrder(v, now, t, t2, q, z);
  }

  lemma SplitConversions(v: Seconds, now: int, i: nat, a: u32, k: nat, c: u32, j: nat, b: u32)
    returns (x: u32, y: u32)
    requires SplitAt(v, i, a, k, c, j, b) && Contiguous(v) && Scaled32(v) && |v.spans| < TWO31
    requires Begin(v, now, j) + b - (Begin(v, now, i) + a) < TWO32
    ensures x == Before(i, a, k, c) && y == After(v, k, c, j, b) && x + y < TWO32
    ensures Begin(v, now, i) + a <= Begin(v, now, k) + c <= Begin(v, now, j) + b
    ensures var t1, t, t2 := Begin(v, now, i) + a, Begin(v, now, k) + c, Begin(v, now, j) + b;
      Splits(Convert(v, Stamp(SeqAt(v, i), a), Stamp(SeqAt(v, k), c), t - t1),
             Convert(v, Stamp(SeqAt(v, k), c), Stamp(SeqAt(v, j), b), t2 - t),
             Convert(v, Stamp(SeqAt(v, i), a), Stamp(SeqAt(v, j), b), t2 - t1),
             LosesAlike(x, y, ScaleQ32(v.nominal, HzAt(v, k))))
  {
    hide SeqAt, Contiguous, Scaled32, Convert, Begin, Pieces, Total, SumTicks, LosesAlike, ScaleQ32, Term, Before,
         After;
    WholeInterval(v, i, a, k, c, j, b);
    PiecesSumToElapsed(v, now, i, a, k, c);
    PiecesSumToElapsed(v, now, k, c, j, b);
    var t1, t, t2 := Begin(v, now, i) + a, Begin(v, now, k) + c, Begin(v, now, j) + b;
    TaggedIntervalConverts(v, now, i, a, k, c, t - t1);
    TaggedIntervalConverts(v, now, k, c, j, b, t2 - t);
    TaggedIntervalConverts(v, now, i, a, j, b, t2 - t1);
    x, y := TotalSplits(v, i, a, k, c, j, b);
    TermSplits(x, y, ScaleQ32(v.nominal, HzAt(v, k)));
  }

  lemma WholeInterval(v: Seconds, i: nat, a: u32, k: nat, c: u32, j: nat, b: u32)
    requires SplitAt(v, i, a, k, c, j, b)
    ensures Interval(v, i, a, j, b)
  {
  }

  /** When every rate is the nominal one the interval comes back unchanged. */
  lemma NominalIntervalUnchanged(v: Seconds, now: int, i: nat, a: u32, j: nat, b: u32, raw: u32)
    requires Tagged(v, i, a, j, b) && raw == (Begin(v, now, j) + b) - (Begin(v, now, i) + a)
    requires forall p :: p in Pieces(v, i, a, j, b) ==> p.hz == v.nominal
    ensures Convert(v, Stamp(SeqAt(v, i), a), Stamp(SeqAt(v, j), b), raw) == Some(raw)
  {
    hide SeqAt, Convert, Pieces, Total, SumTicks, Contiguous, Scaled32;
    TaggedIntervalConverts(v, now, i, a, j, b, raw);
    NominalRateIsIdentity(v.nominal, Pieces(v, i, a, j, b));
    PiecesSumToElapsed(v, now, i, a, j, b);
  }

  /** Such a conversion: 300 ticks counted at 1 Hz are 4.8e9 nominal ticks, which should
      saturate; the wrapped product gives 505032704 instead. */
  lemma SlowRatesWrap(v: Seconds, start: Stamp, end: Stamp, raw: u32)
    requires v.spans == [] && v.primed && v.nominal == 16_000_000 && v.hz == 1 && v.scale == ScaleQ32(v.nominal, v.hz)
    requires start == Stamp(v.seqNo, 0) && end == Stamp(v.seqNo, raw) && raw == 300
    ensures Tagged(v, 0, start.offset, 0, end.offset) && !AllFit(v.nominal, Pieces(v, 0, start.offset, 0, end.offset))
    ensures Convert(v, start, end, raw) == Some(505_032_704)
    ensures Exact(v.nominal, Pieces(v, 0, start.offset, 0, end.offset)) == 4_800_000_000.0
  {
    hide Term, ScaleQ32, Fits, Walk, SeqAt;
    SlowTerm(v.nominal, v.hz, raw);
    OnePiece(v, 0, raw);
    SeqAtEnd(v);
    TaggedIntervalConverts(v, 0, 0, 0, 0, raw, raw);
  }

  lemma SlowTerm(nominal: u32, hz: u32, ticks: u32)
    requires nominal == 16_000_000 && hz == 1 && ticks == 300
    ensures !Fits(ticks, ScaleQ32(nominal, hz)) && Term(ticks, ScaleQ32(nominal, hz)) == 505_032_704
  {
    QuotientIs(nominal * TWO32, hz, nominal * TWO32);
  }

  lemma OnePiece(v: Seconds, a: u32, b: u32)
    requires v.nominal > 0 && v.hz > 0 && a <= b
    ensures var n, ps := |v.spans|, [Piece(b - a, v.hz)];
      && Pieces(v, n, a, n, b) == ps
      && Total(v.nominal, ps) == Term(b - a, ScaleQ32(v.nominal, v.hz))
      && Exact(v.nominal, ps) == ((b - a) * v.nominal) as real / v.hz as real
      && (AllFit(v.nominal, ps) <==> Fits(b - a, ScaleQ32(v.nominal, v.hz)))
  {
    hide Term, ScaleQ32, Fits;
    var ps := [Piece(b - a, v.hz)];
    assert ps[1..] == [] && ps[0] == Piece(b - a, v.hz);
    assert Total(v.nominal, ps[1..]) == 0 && Exact(v.nominal, ps[1..]) == 0.0;
  }

  /** Rates of at least half the nominal one never wrap for pieces under 2^31 ticks. */
  lemma UsualRatesFit(ticks: u32, nominal: u32, hz: u32)
    requires 0 < nominal <= 2 * hz && ticks < TWO31
    ensures Fits(ticks, ScaleQ32(nominal, hz))
  {
    var scale := ScaleQ32(nominal, hz);
    assert scale * hz == hz * scale;
    if scale > 2 * TWO32 {
      Scaled(hz, 2 * TWO32 + 1, scale);
    }
    Scaled(ticks, scale, 2 * TWO32);
  }

  // ---- recording seconds ----

  function Prime(v: Seconds, edge: u32, active: u32): Seconds
    requires v.nominal > 0
  {
    var hz := OrNominal(active, v.nominal);
    v.(primed := true, seqNo := 0, start := edge, hz := hz, scale := ScaleQ32(v.nominal, hz))
  }

  /** ppsAdjustOnPpsFinalized on a ring of this size. */
  function Finalize(v: Seconds, size: nat, prev: u32, curr: u32, applied: u32, next: u32): Seconds
    requires v.nominal > 0
  {
    var w := if v.primed then v else Prime(v, prev, applied);
    var span := Span(w.seqNo, prev, Sub32(curr, prev), OrNominal(applied, v.nominal), ScaleQ32(v.nominal, applied));
    var hz := OrNominal(next, v.nominal);
    w.(spans := Last(w.spans + [span], size), seqNo := Wrap32(w.seqNo + 1), start := curr, hz := hz,
       scale := ScaleQ32(v.nominal, hz))
  }

  lemma ScaleOfRate(nominal: u32, hz: u32)
    requires nominal > 0
    ensures ScaleQ32(nominal, OrNominal(hz, nominal)) == ScaleQ32(nominal, hz)
  {
  }

  /** Seconds stay contiguous while each finished one starts where the last one ended. */
  lemma FinalizeKeepsContiguous(v: Seconds, size: nat, prev: u32, curr: u32, applied: u32, next: u32)
    requires Contiguous(v) && Scaled32(v) && prev == v.start && size > 0
    ensures Contiguous(Finalize(v, size, prev, curr, applied, next))
    ensures Scaled32(Finalize(v, size, prev, curr, applied, next))
  {
    hide ScaleQ32, Wrap32, Sub32;
    var w := Finalize(v, size, prev, curr, applied, next);
    var dropped := |v.spans| + 1 - |w.spans|;
    ScaleOfRate(v.nominal, applied);
    forall i | 0 <= i < |w.spans|
      ensures w.spans[i].seqNo == SeqAt(w, i) && Wrap32(w.spans[i].start + w.spans[i].ticks) == StartAt(w, i + 1)
    {
      FinalizedAt(v, size, prev, curr, applied, next, i);
    }
    forall i | 0 <= i < |w.spans|
      ensures HzAt(w, i) > 0 && ScaleAt(w, i) == ScaleQ32(w.nominal, HzAt(w, i))
    {
      if i + dropped < |v.spans| {
        assert HzAt(v, i + dropped) > 0;
      }
    }
  }

  /** What a finished second leaves: the latest of the old seconds and itself, at the rate that
      was applied during it; the next one is counted at the next rate. */
  lemma FinalizeShifts(v: Seconds, size: nat, prev: u32, curr: u32, applied: u32, next: u32) returns (dropped: nat)
    requires v.primed && v.nominal > 0 && size > 0
    ensures var w := Finalize(v, size, prev, curr, applied, next);
      && w.primed && w.nominal == v.nominal && w.start == curr && w.seqNo == Wrap32(v.seqNo + 1)
      && dropped <= |v.spans| && |w.spans| == |v.spans| + 1 - dropped
      && (forall i :: 0 <= i < |w.spans| - 1 ==> w.spans[i] == v.spans[i + dropped])
      && var last := w.spans[|w.spans| - 1];
        && last.seqNo == v.seqNo && last.start == prev && last.ticks == Sub32(curr, prev)
        && last.hz == OrNominal(applied, v.nominal) && w.hz == OrNominal(next, v.nominal)
  {
    hide ScaleQ32, Wrap32, Sub32, OrNominal;
    dropped := if |v.spans| + 1 <= size then 0 else |v.spans| + 1 - size;
  }

  lemma FinalizedAt(v: Seconds, size: nat, prev: u32, curr: u32, applied: u32, next: u32, i: nat)
    requires Contiguous(v) && v.nominal > 0 && prev == v.start && size > 0
    requires i < |Finalize(v, size, prev, curr, applied, next).spans|
    ensures var w := Finalize(v, size, prev, curr, applied, next);
      w.spans[i].seqNo == SeqAt(w, i) && Wrap32(w.spans[i].start + w.spans[i].ticks) == StartAt(w, i + 1)
  {
    hide Wrap32, Sub32, Finalize;
    var w := Finalize(v, size, prev, curr, applied, next);
    var dropped := FinalizeShifts(v, size, prev, curr, applied, next);
    NumberAfter(v.seqNo, |v.spans|, i + dropped);
    if i < |w.spans| - 1 {
      assert v.spans[i + dropped].seqNo == SeqAt(v, i + dropped);
      assert StartAt(v, i + dropped + 1) == StartAt(w, i + 1);
    } else {
      SubAdds(prev, curr);
    }
  }

  lemma SubAdds(prev: u32, curr: u32)
    ensures Wrap32(prev + Sub32(curr, prev)) == curr
  {
  }

  lemma NumberAfter(number: u32, count: nat, i: int)
    ensures Wrap32(Wrap32(number + 1) - (count + 1) + i) == Wrap32(number - count + i)
    ensures Wrap32(number - count + count) == number
  {
  }

  lemma PrimingStartsContiguous(v: Seconds, edge: u32, active: u32)
    requires v.nominal > 0 && v.spans == []
    ensures Contiguous(Prime(v, edge, active)) && Scaled32(Prime(v, edge, active))
  {
  }
}
