/** Captures, drains, emission and capture resets together (PendulumCapture.cpp,
    SwingAssembler.cpp): where every row boundary comes from, and which rows are five
    consecutive captures. */
module SwingPath {
  import opened Words
  import opened BoundedRing
  import opened SwingCapture

  // ---- which of the delivered captures become boundaries ----

  predicate AcceptsPosition(awaited: Side, a: seq<nat>, k: nat) {
    if |a| == 0 then SideOf(k) == awaited else SideOf(k) != SideOf(a[|a| - 1])
  }

  /** Positions of the boundaries among these delivered capture positions, when the first is
      to be of the awaited side. */
  function Positions(awaited: Side, idx: seq<nat>): seq<nat> {
    if |idx| == 0 then []
    else
      var before, k := Positions(awaited, idx[..|idx| - 1]), idx[|idx| - 1];
      if AcceptsPosition(awaited, before, k) then before + [k] else before
  }

  /** Delivering edges in two lots is delivering them in one. */
  lemma {:induction false} BoundariesCompose(acc: seq<EdgeEvent>, a: seq<EdgeEvent>, b: seq<EdgeEvent>)
    ensures Boundaries(Boundaries(acc, a), b) == Boundaries(acc, a + b)
  {
    hide Accepts;
    if |b| == 0 {
      assert a + b == a;
    } else {
      BoundariesCompose(acc, a, b[..|b| - 1]);
      assert (a + b)[..|a + b| - 1] == a + b[..|b| - 1];
    }
  }

  lemma AcceptsByPosition(acc: seq<EdgeEvent>, captures: seq<u32>, a: seq<nat>, k: nat)
    requires k < |captures| && forall i :: 0 <= i < |a| ==> a[i] < |captures|
    ensures Accepts(acc + Events(captures, a), Event(captures, k)) <==> AcceptsPosition(Awaited(acc), a, k)
  {
    hide SideOf;
    if |a| > 0 {
      assert (acc + Events(captures, a))[|acc| + |a| - 1].side == SideOf(a[|a| - 1]);
    } else {
      assert acc + Events(captures, a) == acc;
    }
  }

  /** From any boundaries so far, which captures become boundaries depends only on which of
      them are delivered and on the side awaited. */
  lemma {:induction false} BoundariesByPosition(acc: seq<EdgeEvent>, captures: seq<u32>, idx: seq<nat>)
    requires forall i :: 0 <= i < |idx| ==> idx[i] < |captures|
    ensures var a := Positions(Awaited(acc), idx);
      && (forall i :: 0 <= i < |a| ==> a[i] < |captures|)
      && Boundaries(acc, Events(captures, idx)) == acc + Events(captures, a)
    decreases |idx|
  {
    hide SideOf, Accepts, AcceptsPosition, Events;
    if |idx| == 0 {
      NoEvents(captures);
      assert acc + [] == acc;
    } else {
      var prefix, k := idx[..|idx| - 1], idx[|idx| - 1];
      BoundariesByPosition(acc, captures, prefix);
      assert idx == prefix + [k];
      EventsAppend(captures, prefix, k);
      BoundariesAppend(acc, Events(captures, prefix), Event(captures, k));
      var a := Positions(Awaited(acc), prefix);
      EventsAppend(captures, a, k);
      AcceptsByPosition(acc, captures, a, k);
      assert (acc + Events(captures, a)) + [Event(captures, k)] == acc + (Events(captures, a) + [Event(captures, k)]);
    }
  }

  lemma NoEvents(captures: seq<u32>)
    ensures Events(captures, []) == []
  {
  }

  /** The first position is the first delivered one of the awaited side, and each next the
      first delivered one of the other side. */
  predicate Greedy(awaited: Side, a: seq<nat>, idx: seq<nat>) {
    && (forall i :: 0 <= i < |a| ==> a[i] in idx)
    && (if |a| == 0 then NoneOf(awaited, idx) else SideOf(a[0]) == awaited && NoneBefore(awaited, a[0], idx))
    && (forall i :: 0 <= i < |a| - 1 ==> Follows(a[i], a[i + 1], idx))
    && (|a| > 0 ==> Awaits(a[|a| - 1], idx))
  }

  predicate NoneOf(side: Side, idx: seq<nat>) {
    forall k :: k in idx ==> SideOf(k) != side
  }

  predicate NoneBefore(side: Side, b: nat, idx: seq<nat>) {
    forall k :: k in idx && k < b ==> SideOf(k) != side
  }

  /** b is the first delivered position after a of the other side. */
  predicate Follows(a: nat, b: nat, idx: seq<nat>) {
    && a < b && SideOf(a) != SideOf(b)
    && forall k :: k in idx && a < k < b ==> SideOf(k) == SideOf(a)
  }

  predicate Awaits(a: nat, idx: seq<nat>) {
    forall k :: k in idx && a < k ==> SideOf(k) == SideOf(a)
  }

  lemma FollowsStill(a: nat, b: nat, idx: seq<nat>, k: nat)
    requires Follows(a, b, idx) && b <= k
    ensures Follows(a, b, idx + [k])
  {
  }

  lemma AwaitedArrives(a: nat, idx: seq<nat>, k: nat)
    requires Awaits(a, idx) && a < k && forall j :: j in idx ==> j < k
    ensures if SideOf(k) == SideOf(a) then Awaits(a, idx + [k]) else Follows(a, k, idx + [k]) && Awaits(k, idx + [k])
  {
    hide SideOf;
  }

  lemma FirstArrives(awaited: Side, idx: seq<nat>, k: nat)
    requires NoneOf(awaited, idx) && forall j :: j in idx ==> j < k
    ensures if SideOf(k) == awaited then NoneBefore(awaited, k, idx + [k]) && Awaits(k, idx + [k])
            else NoneOf(awaited, idx + [k])
  {
    hide SideOf;
  }

  lemma NoneBeforeStill(side: Side, b: nat, idx: seq<nat>, k: nat)
    requires NoneBefore(side, b, idx) && b <= k
    ensures NoneBefore(side, b, idx + [k])
  {
  }

  lemma GreedyStep(awaited: Side, a: seq<nat>, idx: seq<nat>, k: nat)
    requires Greedy(awaited, a, idx) && forall j :: j in idx ==> j < k
    ensures Greedy(awaited, if AcceptsPosition(awaited, a, k) then a + [k] else a, idx + [k])
  {
    hide SideOf, Follows, Awaits, NoneOf, NoneBefore;
    forall i | 0 <= i < |a| - 1
      ensures Follows(a[i], a[i + 1], idx + [k])
    {
      FollowsStill(a[i], a[i + 1], idx, k);
    }
    if |a| > 0 {
      NoneBeforeStill(awaited, a[0], idx, k);
      AwaitedArrives(a[|a| - 1], idx, k);
    } else {
      FirstArrives(awaited, idx, k);
    }
  }

  lemma {:induction false} BoundariesAreGreedy(awaited: Side, idx: seq<nat>, bound: nat)
    requires Increasing(idx, bound)
    ensures Greedy(awaited, Positions(awaited, idx), idx)
    decreases |idx|
  {
    hide Greedy, SideOf, Increasing, Positions, AcceptsPosition;
    if |idx| == 0 {
      NothingIsGreedy(awaited, idx);
    } else {
      var prefix, k := idx[..|idx| - 1], idx[|idx| - 1];
      LatestIsLargest(idx, bound);
      BoundariesAreGreedy(awaited, prefix, bound);
      assert idx == prefix + [k];
      GreedyStep(awaited, Positions(awaited, prefix), prefix, k);
      PositionsAppend(awaited, prefix, k);
    }
  }

  lemma NothingIsGreedy(awaited: Side, idx: seq<nat>)
    requires idx == []
    ensures Positions(awaited, idx) == [] && Greedy(awaited, [], idx)
  {
  }

  lemma LatestIsLargest(idx: seq<nat>, bound: nat)
    requires Increasing(idx, bound) && |idx| > 0
    ensures var prefix, k := idx[..|idx| - 1], idx[|idx| - 1];
      Increasing(prefix, bound) && forall j :: j in prefix ==> j < k
  {
  }

  lemma PositionsAppend(awaited: Side, prefix: seq<nat>, k: nat)
    ensures var a := Positions(awaited, prefix);
      Positions(awaited, prefix + [k]) == if AcceptsPosition(awaited, a, k) then a + [k] else a
  {
    assert (prefix + [k])[..|prefix|] == prefix;
  }

  // ---- rows and the captures they are made of ----

  /** Where a boundary comes from: an earlier run of captures, ended by a capture reset, or
      the k-th capture since. */
  datatype Origin = BeforeReset | Capture(k: nat)

  function OriginOf(base: nat, a: seq<nat>, i: nat): Origin
    requires i < base + |a|
  {
    if i < base then BeforeReset else Capture(a[i - base])
  }

  /** Row n is made of the five captures from `first` on. */
  predicate MadeOf(base: nat, a: seq<nat>, n: nat, first: nat)
    requires 4 * n + 4 < base + |a|
  {
    && OriginOf(base, a, 4 * n) == Capture(first) && OriginOf(base, a, 4 * n + 1) == Capture(first + 1)
    && OriginOf(base, a, 4 * n + 2) == Capture(first + 2) && OriginOf(base, a, 4 * n + 3) == Capture(first + 3)
    && OriginOf(base, a, 4 * n + 4) == Capture(first + 4)
  }

  predicate FourFollow(first: nat, idx: seq<nat>) {
    first + 1 in idx && first + 2 in idx && first + 3 in idx && first + 4 in idx
  }

  /** The next boundary is the next capture exactly when that capture was delivered. */
  lemma NextBoundary(awaited: Side, a: seq<nat>, idx: seq<nat>, i: nat)
    requires Greedy(awaited, a, idx) && i + 1 < |a|
    ensures a[i] < a[i + 1] && (a[i + 1] == a[i] + 1 <==> a[i] + 1 in idx)
  {
    assert Follows(a[i], a[i + 1], idx);
    SidesAlternate(a[i]);
  }

  lemma FourSteps(awaited: Side, a: seq<nat>, idx: seq<nat>, i: nat)
    requires Greedy(awaited, a, idx) && i + 4 < |a|
    ensures a[i] < a[i + 1] < a[i + 2] < a[i + 3] < a[i + 4]
    ensures a[i + 4] == a[i] + 4 <==> FourFollow(a[i], idx)
  {
    hide Greedy;
    NextBoundary(awaited, a, idx, i);
    NextBoundary(awaited, a, idx, i + 1);
    NextBoundary(awaited, a, idx, i + 2);
    NextBoundary(awaited, a, idx, i + 3);
  }

  /** A row's five edges are consecutive captures exactly when its first boundary is no older
      than the last capture reset and the four captures after it were all delivered. */
  lemma RowIsContiguous(awaited: Side, base: nat, idx: seq<nat>, bound: nat, n: nat)
    requires Increasing(idx, bound) && 4 * n + 4 < base + |Positions(awaited, idx)|
    ensures (exists first :: MadeOf(base, Positions(awaited, idx), n, first)) <==>
            base <= 4 * n && FourFollow(Positions(awaited, idx)[4 * n - base], idx)
  {
    hide Greedy, Positions, FourFollow;
    var a := Positions(awaited, idx);
    BoundariesAreGreedy(awaited, idx, bound);
    if base <= 4 * n {
      FourSteps(awaited, a, idx, 4 * n - base);
      if FourFollow(a[4 * n - base], idx) {
        assert MadeOf(base, a, n, a[4 * n - base]);
      }
    }
  }

  function EdgeOf(row: FullSwing, i: nat): u32
    requires i < 5
  {
    if i == 0 then row.edge0
    else if i == 1 then row.edge1
    else if i == 2 then row.edge2
    else if i == 3 then row.edge3
    else row.edge4
  }

  // ---- what the drain loop stores ----

  function StoreRun(x: Intake, n: nat): (y: Intake)
    ensures x.stored <= y.stored && y.popped == x.popped && y.count == x.count + n
  {
    if n == 0 then x else StoreOne(StoreRun(x, n - 1))
  }

  /** Of captures that arrive together the first ones are stored, as many as there are free slots. */
  lemma {:induction false} FirstOnesAreStored(x: Intake, n: nat)
    requires x.popped <= |x.stored| < x.popped + EDGE_RING
    ensures StoreRun(x, n).stored ==
            x.stored + Counting(x.count, Min(n, EDGE_RING - 1 - (|x.stored| - x.popped)))
  {
    hide Counting;
    if n == 0 {
      CountingNone(x.count);
      assert x.stored + [] == x.stored;
    } else {
      FirstOnesAreStored(x, n - 1);
      if n <= EDGE_RING - 1 - (|x.stored| - x.popped) {
        CountingMore(x.count, n - 1);
        assert x.stored + Counting(x.count, n - 1) + [x.count + n - 1] ==
               x.stored + (Counting(x.count, n - 1) + [x.count + (n - 1)]);
      }
    }
  }

  lemma CountingMore(from: nat, n: nat)
    ensures Counting(from, n + 1) == Counting(from, n) + [from + n]
  {
  }

  lemma TakeShrinks(x: Intake)
    ensures TakeOldest(StoreRun(x, 0)).stored == x.stored && TakeOldest(StoreRun(x, 0)).popped >= x.popped
  {
  }

  /** Captures after so many looks into the ring, with arrivals before each look. */
  function Looked(x: Intake, arrivals: seq<seq<u32>>, turns: nat): Intake {
    if turns == 0 then x else TakeOldest(StoreRun(Looked(x, arrivals, turns - 1), |At(arrivals, turns - 1)|))
  }

  lemma LookedNone(x: Intake, arrivals: seq<seq<u32>>)
    ensures Looked(x, arrivals, 0) == x
  {
  }

  lemma LookedNext(x: Intake, arrivals: seq<seq<u32>>, turns: nat)
    ensures Looked(x, arrivals, turns + 1) == TakeOldest(StoreRun(Looked(x, arrivals, turns), |At(arrivals, turns)|))
    ensures At(arrivals, turns) == [] ==> StoreRun(Looked(x, arrivals, turns), 0) == Looked(x, arrivals, turns)
  {
  }

  /** The capture interrupt, the assembler and the sender of one firmware run. */
  class SwingFeed {
    const ir: IrCapture
    const assembler: SwingAssembler
    /** The boundaries when captures were last reset. */
    ghost var base: seq<EdgeEvent>

    /** The boundaries are those at the last reset and what the edges taken since made of them. */
    ghost predicate Linked(taken: nat)
      reads this`base, ir`captures, ir`stored, assembler`boundaries
    {
      && taken <= |ir.stored| && (forall i :: 0 <= i < |ir.stored| ==> ir.stored[i] < |ir.captures|)
      && assembler.boundaries == Boundaries(base, Events(ir.captures, ir.stored[..taken]))
    }

    ghost predicate Valid()
      reads this, ir, ir.ring, ir.ring.buf, assembler, assembler.rows, assembler.rows.buf
    {
      ir.Valid() && assembler.Valid() && Linked(ir.popped)
    }

    constructor ()
      ensures Valid() && base == [] && fresh(ir) && fresh(assembler)
    {
      ir := new IrCapture();
      assembler := new SwingAssembler();
      base := [];
    }

    /** A capture interrupt, at any moment. */
    method Capture(edge32: u32, ghost taken: nat)
      requires ir.Valid() && Linked(taken) && taken <= ir.popped
      modifies ir, ir.ring, ir.ring.buf
      ensures ir.Valid() && Linked(taken) && ir.popped == old(ir.popped)
      ensures ir.captures == old(ir.captures) + [edge32]
      ensures ir.Taken() == StoreOne(old(ir.Taken()))
    {
      hide IrCapture.Valid, Boundaries, Events;
      EventsGrow(ir.captures, ir.stored[..taken], edge32);
      ghost var stored := ir.stored;
      ir.CaptureIsr(edge32);
      assert ir.stored[..taken] == stored[..taken];
    }

    method Arrive(edges: seq<u32>, ghost taken: nat)
      requires ir.Valid() && Linked(taken) && taken <= ir.popped
      modifies ir, ir.ring, ir.ring.buf
      ensures ir.Valid() && Linked(taken) && ir.popped == old(ir.popped)
      ensures ir.captures == old(ir.captures) + edges && ir.Taken() == StoreRun(old(ir.Taken()), |edges|)
    {
      hide IrCapture.Valid, Linked, StoreOne;
      ghost var before := ir.Taken();
      assert edges[..0] == [];
      for i := 0 to |edges|
        invariant ir.Valid() && Linked(taken) && ir.popped == old(ir.popped)
        invariant ir.captures == old(ir.captures) + edges[..i]
        invariant ir.Taken() == StoreRun(before, i)
      {
        Capture(edges[i], taken);
        assert edges[..i + 1] == edges[..i] + [edges[i]];
      }
      assert edges[..|edges|] == edges;
    }

    /** A capture reset at run time: captures start over, the row in progress does not. */
    method CaptureReset()
      requires Valid()
      modifies this`base, ir, ir.ring
      ensures Valid() && base == assembler.boundaries == old(assembler.boundaries) && ir.captures == []
    {
      hide Boundaries;
      ir.Reset();
      base := assembler.boundaries;
      NoEvents(ir.captures);
      BoundariesOfNothing(base);
    }

    /** The edge just taken, if any, is the last one popped and is still to be processed; if
        none was taken the ring was empty. */
    ghost predicate InHand(e: Option<EdgeEvent>)
      reads this`base, ir`captures, ir`stored, ir`popped, assembler`boundaries
    {
      if e.None? then ir.popped == |ir.stored| && Linked(ir.popped)
      else
        && 0 < ir.popped <= |ir.stored| && Linked(ir.popped - 1)
        && e.value == Event(ir.captures, ir.stored[ir.popped - 1])
    }

    method ProcessTaken(e: EdgeEvent)
      requires ir.Valid() && assembler.Valid() && InHand(Some(e))
      modifies assembler, assembler.rows, assembler.rows.buf
      ensures ir.Valid() && assembler.Valid() && Linked(ir.popped)
      ensures Fills(old(assembler.Queue()), assembler.Queue())
    {
      hide IrCapture.Valid, SwingAssembler.Valid, Boundaries, Events, Accepts, Event, Fills, Completes, Offer;
      RowsAreValid();
      FillsNone(assembler.Queue());
      FillsOne(assembler.Queue());
      assert (assembler.rows as object) != ir.ring && (assembler.rows.buf as object) != ir.ring.buf;
      ghost var taken, k := ir.stored[..ir.popped - 1], ir.stored[ir.popped - 1];
      assert ir.stored[..ir.popped] == taken + [k];
      TakeOne(base, ir.captures, taken, k);
      assembler.ProcessEdge(e);
      RowsAreValid();
    }

    /** Edges may arrive, then the oldest stored one is taken. */
    method TakeNext(edges: seq<u32>) returns (e: Option<EdgeEvent>)
      requires ir.Valid() && Linked(ir.popped)
      modifies ir, ir.ring, ir.ring.buf
      ensures ir.Valid() && InHand(e) && ir.captures == old(ir.captures) + edges
      ensures ir.Taken() == TakeOldest(StoreRun(old(ir.Taken()), |edges|))
      ensures ir.popped == old(ir.popped) + if e.Some? then 1 else 0
    {
      hide IrCapture.Valid, Linked, StoreRun;
      Arrive(edges, ir.popped);
      StoredFits();
      e := ir.TryPopEdge();
    }

    lemma StoredFits()
      requires ir.Valid()
      ensures ir.popped <= |ir.stored|
    {
    }

    lemma RowsAreValid()
      requires assembler.Valid()
      ensures assembler.Queue().waiting < ROW_RING
    {
    }

    /** One turn of the drain loop. */
    method Turn(e: EdgeEvent, edges: seq<u32>) returns (next: Option<EdgeEvent>)
      requires ir.Valid() && assembler.Valid() && InHand(Some(e))
      modifies ir, ir.ring, ir.ring.buf, assembler, assembler.rows, assembler.rows.buf
      ensures ir.Valid() && assembler.Valid() && InHand(next) && ir.captures == old(ir.captures) + edges
      ensures ir.Taken() == TakeOldest(StoreRun(old(ir.Taken()), |edges|))
      ensures ir.popped == old(ir.popped) + if next.Some? then 1 else 0
      ensures Fills(old(assembler.Queue()), assembler.Queue())
    {
      hide IrCapture.Valid, SwingAssembler.Valid, Linked, InHand, Fills, StoreRun, TakeOldest;
      assert (assembler.rows as object) != ir.ring && (assembler.rows.buf as object) != ir.ring.buf;
      RowsAreValid();
      ProcessTaken(e);
      next := TakeNext(edges);
    }

    /** After so many looks into the ring, the last of which gave e. */
    ghost predicate Draining(captures: seq<u32>, taken: Intake, queue: RowQueue, arrivals: seq<seq<u32>>, turns: nat,
                             e: Option<EdgeEvent>)
      reads this, ir, ir.ring, ir.ring.buf, assembler, assembler.rows, assembler.rows.buf
    {
      && ir.Valid() && assembler.Valid() && InHand(e) && ir.popped <= |ir.stored|
      && ir.captures == captures + Arrived(arrivals, turns)
      && ir.Taken() == Looked(taken, arrivals, turns) && Fills(queue, assembler.Queue())
    }

    method DrainTurn(e: EdgeEvent, arrivals: seq<seq<u32>>, turns: nat, ghost captures: seq<u32>, ghost taken: Intake,
                     ghost queue: RowQueue)
      returns (next: Option<EdgeEvent>)
      requires Draining(captures, taken, queue, arrivals, turns, Some(e))
      modifies ir, ir.ring, ir.ring.buf, assembler, assembler.rows, assembler.rows.buf
      ensures Draining(captures, taken, queue, arrivals, turns + 1, next)
      ensures turns >= |arrivals| ==> ir.stored == old(ir.stored) && ir.popped >= old(ir.popped)
      ensures next.Some? ==> ir.popped == old(ir.popped) + 1
    {
      hide IrCapture.Valid, SwingAssembler.Valid, Arrived, Fills, StoreRun, Looked, InHand, TakeOldest;
      CapturesGrow(captures, arrivals, turns);
      LookedNext(taken, arrivals, turns);
      TakeShrinks(ir.Taken());
      ghost var q := assembler.Queue();
      next := Turn(e, At(arrivals, turns));
      FillsOn(queue, q, assembler.Queue());
      PoppedFits(next);
    }

    /** swingAssemblerProcessEdges. Before every look into the ring any captures may arrive;
        the drain ends at the first look that finds the ring empty. Captures are stored while
        fewer than 31 wait, and rows completed on the way are queued while fewer than seven do. */
    method ProcessEdges(arrivals: seq<seq<u32>>) returns (turns: nat)
      requires Valid()
      modifies ir, ir.ring, ir.ring.buf, assembler, assembler.rows, assembler.rows.buf
      ensures Valid() && ir.popped == |ir.stored|
      ensures ir.captures == old(ir.captures) + Arrived(arrivals, turns)
      ensures ir.Taken() == Looked(old(ir.Taken()), arrivals, turns)
      ensures Fills(old(assembler.Queue()), assembler.Queue())
    {
      hide IrCapture.Valid, SwingAssembler.Valid, Linked, Arrived, Fills, StoreRun, Looked, InHand, TakeOldest;
      ghost var queue, taken, captures := assembler.Queue(), ir.Taken(), ir.captures;
      var e := FirstLook(arrivals);
      turns := 1;
      while e.Some?
        invariant turns > 0 && Draining(captures, taken, queue, arrivals, turns, e)
        decreases Max(0, |arrivals| - turns), |ir.stored| - ir.popped, e.Some?
      {
        e := DrainTurn(e.value, arrivals, turns, captures, taken, queue);
        turns := turns + 1;
      }
      Drained(e);
    }

    method FirstLook(arrivals: seq<seq<u32>>) returns (e: Option<EdgeEvent>)
      requires Valid()
      modifies ir, ir.ring, ir.ring.buf, assembler, assembler.rows, assembler.rows.buf
      ensures Draining(old(ir.captures), old(ir.Taken()), old(assembler.Queue()), arrivals, 1, e)
    {
      hide IrCapture.Valid, SwingAssembler.Valid, Linked, Arrived, Fills, StoreRun, Looked, InHand, TakeOldest;
      assert (assembler.rows as object) != ir.ring && (assembler.rows.buf as object) != ir.ring.buf;
      RowsAreValid();
      ghost var taken, captures := ir.Taken(), ir.captures;
      FillsNone(assembler.Queue());
      CapturesBefore(captures, arrivals);
      CapturesGrow(captures, arrivals, 0);
      LookedNone(taken, arrivals);
      LookedNext(taken, arrivals, 0);
      e := TakeNext(At(arrivals, 0));
      PoppedFits(e);
    }

    lemma PoppedFits(e: Option<EdgeEvent>)
      requires InHand(e)
      ensures ir.popped <= |ir.stored|
    {
    }

    lemma Drained(e: Option<EdgeEvent>)
      requires InHand(e) && e.None?
      ensures ir.popped == |ir.stored| && Linked(ir.popped)
    {
    }

    /** The emit loop leaves captures and boundaries alone. */
    method EmitRows(budget: nat, ready: bool, sends: seq<bool>)
      requires Valid() && |sends| == budget
      modifies assembler`retired, assembler`sent, assembler`emitFailures, assembler.rows`tail
      ensures Valid() && old(assembler.sent) <= assembler.sent
      ensures |assembler.sent| <= |old(assembler.sent)| + budget
      ensures old(assembler.rows.Contents()) ==
              assembler.sent[|old(assembler.sent)|..] + assembler.rows.Contents()
      ensures |assembler.sent| - |old(assembler.sent)| < budget && ready && assembler.rows.Contents() != [] ==>
        !sends[|assembler.sent| - |old(assembler.sent)|]
      ensures !ready ==> assembler.sent == old(assembler.sent)
      ensures assembler.emitFailures ==
              Failures(old(assembler.emitFailures), |assembler.sent| - |old(assembler.sent)| < budget && ready
                                                    && assembler.rows.Contents() != [])
    {
      hide Boundaries, Events;
      assert (assembler.rows as object) != ir.ring;
      assembler.EmitRows(budget, ready, sends);
    }

    /** The captures since the last reset that became boundaries. */
    ghost function Since(): (a: seq<nat>)
      reads this, ir
      requires ir.popped <= |ir.stored|
    {
      Positions(Awaited(base), ir.stored[..ir.popped])
    }

    /** In every reachable state each boundary is one of those at the last reset or the capture
        at the position its place calls for; so are the edges of every row. */
    lemma RowEdges(n: nat, i: nat)
      requires Valid() && 4 * n + 4 < |assembler.boundaries| && i < 5
      ensures |assembler.boundaries| == |base| + |Since()|
      ensures forall m :: 0 <= m < |Since()| ==> Since()[m] < |ir.captures|
      ensures EdgeOf(Row(assembler.boundaries, n), i) ==
        match OriginOf(|base|, Since(), 4 * n + i)
        case BeforeReset => base[4 * n + i].ticks
        case Capture(k) => ir.captures[k]
    {
      hide Positions, Boundaries;
      BoundariesByPosition(base, ir.captures, ir.stored[..ir.popped]);
      assert assembler.boundaries == base + Events(ir.captures, Since());
    }

    /** A row spans the last capture reset exactly when its first boundary is from before and
        its last from after. The first of its edges from after is then the first stored
        capture of the side awaited at the reset. */
    lemma RowSpansReset(n: nat)
      requires Valid() && 4 * n + 4 < |assembler.boundaries|
      ensures |assembler.boundaries| == |base| + |Since()|
      ensures OriginOf(|base|, Since(), 4 * n).BeforeReset? && OriginOf(|base|, Since(), 4 * n + 4).Capture? <==>
              4 * n < |base| <= 4 * n + 4
      ensures 4 * n < |base| <= 4 * n + 4 ==>
        && Since()[0] in ir.stored && SideOf(Since()[0]) == Awaited(base)
        && NoneBefore(Awaited(base), Since()[0], ir.stored)
    {
      hide Positions, Boundaries, Events, SideOf;
      var taken := ir.stored[..ir.popped];
      BoundariesByPosition(base, ir.captures, taken);
      BoundariesAreGreedy(Awaited(base), taken, |ir.captures|);
      if 4 * n < |base| <= 4 * n + 4 {
        assert Since()[0] in taken;
        assert forall k :: k in ir.stored && k <= Since()[0] ==> k in taken;
      }
    }

    /** In every reachable state a completed row is five consecutive captures exactly when its
        first boundary is no older than the last capture reset and none of the four captures
        after it was dropped. */
    lemma RowIsFiveCaptures(n: nat)
      requires Valid() && 4 * n + 4 < |assembler.boundaries|
      ensures |assembler.boundaries| == |base| + |Since()|
      ensures (exists first :: MadeOf(|base|, Since(), n, first)) <==>
              |base| <= 4 * n && FourFollow(Since()[4 * n - |base|], ir.stored)
    {
      hide Positions, Boundaries, Events, FourFollow, MadeOf;
      var taken := ir.stored[..ir.popped];
      BoundariesByPosition(base, ir.captures, taken);
      assert Increasing(taken, |ir.captures|);
      RowIsContiguous(Awaited(base), |base|, taken, |ir.captures|, n);
      if |base| <= 4 * n {
        BoundariesAreGreedy(Awaited(base), taken, |ir.captures|);
        FourStored(Awaited(base), Since(), ir.stored, ir.popped, |ir.captures|, 4 * n - |base|);
      }
    }
  }

  function At(arrivals: seq<seq<u32>>, turn: nat): seq<u32> {
    if turn < |arrivals| then arrivals[turn] else []
  }

  /** What arrived before the first so many looks into the ring. */
  function Arrived(arrivals: seq<seq<u32>>, turns: nat): seq<u32> {
    if turns == 0 then [] else Arrived(arrivals, turns - 1) + At(arrivals, turns - 1)
  }

  lemma CapturesBefore(captures: seq<u32>, arrivals: seq<seq<u32>>)
    ensures captures + Arrived(arrivals, 0) == captures
  {
  }

  lemma CapturesGrow(captures: seq<u32>, arrivals: seq<seq<u32>>, turns: nat)
    ensures captures + Arrived(arrivals, turns + 1) == (captures + Arrived(arrivals, turns)) + At(arrivals, turns)
    ensures turns >= |arrivals| ==> At(arrivals, turns) == []
  {
    assert Arrived(arrivals, turns + 1) == Arrived(arrivals, turns) + At(arrivals, turns);
  }

  /** A capture stored before one that was taken has been taken too. */
  lemma FourStored(awaited: Side, a: seq<nat>, stored: seq<nat>, taken: nat, bound: nat, i: nat)
    requires taken <= |stored| && Increasing(stored, bound) && Greedy(awaited, a, stored[..taken]) && i + 4 < |a|
    ensures FourFollow(a[i], stored) <==> FourFollow(a[i], stored[..taken])
  {
    FourSteps(awaited, a, stored[..taken], i);
    assert a[i + 4] in stored[..taken];
    assert forall k :: k in stored && k <= a[i + 4] ==> k in stored[..taken];
  }

  function Upto(n: nat): (idx: seq<nat>)
    ensures |idx| == n && forall i :: 0 <= i < n ==> idx[i] == i
  {
    seq(n, i => i)
  }

  /** When nothing is dropped every capture becomes a boundary, but for the very first one if
      it is of the side that is not awaited. */
  lemma {:induction false} NothingDropped(awaited: Side, n: nat)
    ensures Positions(awaited, Upto(n)) == if awaited == TICK || n == 0 then Upto(n) else Upto(n)[1..]
  {
    hide Upto, Positions, SideOf;
    if n == 0 {
      NothingIsGreedy(awaited, Upto(0));
    } else {
      NothingDropped(awaited, n - 1);
      assert Upto(n) == Upto(n - 1) + [n - 1];
      PositionsAppend(awaited, Upto(n - 1), n - 1);
      OneMore(awaited, n);
    }
  }

  lemma OneMore(awaited: Side, n: nat)
    requires n > 0
    ensures var a := if awaited == TICK || n == 1 then Upto(n - 1) else Upto(n - 1)[1..];
      (if AcceptsPosition(awaited, a, n - 1) then a + [n - 1] else a) ==
      if awaited == TICK then Upto(n) else Upto(n)[1..]
  {
    hide Upto;
    if n > 1 {
      SidesAlternate(n - 2);
    }
    assert Upto(n) == Upto(n - 1) + [n - 1];
    if n > 1 {
      assert Upto(n)[1..] == Upto(n - 1)[1..] + [n - 1];
    }
  }

  /** A reset in mid-row: the row's first edge is from before it, and the first capture after
      it, of the side that is not awaited, is passed over although nothing was dropped. */
  lemma ResetInMidRow(base: seq<EdgeEvent>, captures: seq<u32>)
    requires |base| == 1 && base[0].side == TICK && |captures| == 5
    ensures var all := Boundaries(base, Events(captures, Upto(5)));
      |all| == 5 && Row(all, 0) == FullSwing(1, base[0].ticks, captures[1], captures[2], captures[3], captures[4])
  {
    hide Positions, Boundaries;
    BoundariesByPosition(base, captures, Upto(5));
    NothingDropped(TOCK, 5);
    var all, a := Boundaries(base, Events(captures, Upto(5))), Upto(5)[1..];
    assert all == base + Events(captures, a);
    assert forall i :: 0 <= i < 4 ==> all[i + 1].ticks == captures[a[i]] && a[i] == i + 1;
  }

  lemma BoundariesOfNothing(acc: seq<EdgeEvent>)
    ensures Boundaries(acc, []) == acc
  {
  }

  lemma TakeOne(base: seq<EdgeEvent>, captures: seq<u32>, taken: seq<nat>, k: nat)
    requires k < |captures| && forall i :: 0 <= i < |taken| ==> taken[i] < |captures|
    ensures var before, e := Boundaries(base, Events(captures, taken)), Event(captures, k);
      Boundaries(base, Events(captures, taken + [k])) == if Accepts(before, e) then before + [e] else before
  {
    hide Events, Boundaries, Accepts;
    EventsAppend(captures, taken, k);
    BoundariesAppend(base, Events(captures, taken), Event(captures, k));
  }
}
