/** The capture interrupt and its edge ring (PendulumCapture.cpp), the row assembler
    (SwingAssembler.cpp) and the emit loop (PendulumCore.cpp). */
module SwingCapture {
  import opened Words
  import opened BoundedRing

  datatype Side = TICK | TOCK

  datatype EdgeEvent = EdgeEvent(ticks: u32, side: Side)

  datatype FullSwing = FullSwing(seqNo: u32, edge0: u32, edge1: u32, edge2: u32, edge3: u32, edge4: u32)

  const EDGE_RING := 32
  const ROW_RING := 8

  function Opposite(s: Side): Side {
    if s.TICK? then TOCK else TICK
  }

  /** The side of the k-th capture since a reset: they alternate, starting with tick. */
  function SideOf(k: nat): Side {
    if k % 2 == 0 then TICK else TOCK
  }

  // ---- which delivered edges become row boundaries ----

  /** The side of the next boundary: the first is a tick, and sides alternate. */
  function Awaited(acc: seq<EdgeEvent>): Side {
    if |acc| == 0 then TICK else Opposite(acc[|acc| - 1].side)
  }

  predicate Accepts(acc: seq<EdgeEvent>, e: EdgeEvent) {
    e.side == Awaited(acc)
  }

  /** The boundaries after these edges are delivered: each delivered edge of the side
      opposite to the last boundary, the first one a tick. */
  function Boundaries(acc: seq<EdgeEvent>, events: seq<EdgeEvent>): seq<EdgeEvent> {
    if |events| == 0 then acc
    else
      var before := Boundaries(acc, events[..|events| - 1]);
      var e := events[|events| - 1];
      if Accepts(before, e) then before + [e] else before
  }

  /** Row n: boundaries 4n to 4n+4, so that neighbouring rows share one. */
  function Row(acc: seq<EdgeEvent>, n: nat): FullSwing
    requires 4 * n + 4 < |acc|
  {
    FullSwing(Wrap32(n + 1), acc[4 * n].ticks, acc[4 * n + 1].ticks, acc[4 * n + 2].ticks, acc[4 * n + 3].ticks,
              acc[4 * n + 4].ticks)
  }

  /** A row's last edge is the next row's first. */
  lemma RowsShareEdges(acc: seq<EdgeEvent>, n: nat)
    requires 4 * n + 8 < |acc|
    ensures Row(acc, n).edge4 == Row(acc, n + 1).edge0
    ensures Row(acc, n + 1).seqNo == Wrap32(Row(acc, n).seqNo + 1)
  {
  }

  /** The positions of the captures stored so far, how many of these were taken, and how many
      captures there were. */
  datatype Intake = Intake(stored: seq<nat>, popped: nat, count: nat)

  /** One more capture: stored while fewer than 31 wait. */
  function StoreOne(x: Intake): Intake {
    if |x.stored| - x.popped < EDGE_RING - 1 then Intake(x.stored + [x.count], x.popped, x.count + 1)
    else x.(count := x.count + 1)
  }

  function TakeOldest(x: Intake): Intake {
    if x.popped < |x.stored| then x.(popped := x.popped + 1) else x
  }

  /** The capture interrupt and its edge ring. */
  class IrCapture {
    const ring: Ring<EdgeEvent>
    var side: Side
    var dropped: u32
    /** Every captured edge since the reset, and the positions of those that were stored. */
    ghost var captures: seq<u32>
    ghost var stored: seq<nat>
    ghost var popped: nat

    ghost predicate Valid()
      reads this, ring, ring.buf
    {
      && ring.Valid() && ring.buf.Length == EDGE_RING
      && side == SideOf(|captures|) && Increasing(stored, |captures|)
      && dropped == Wrap32(|captures| - |stored|)
      && popped <= |stored| && ring.Contents() == Events(captures, stored[popped..])
    }

    ghost function Taken(): Intake
      reads this`stored, this`popped, this`captures
    {
      Intake(stored, popped, |captures|)
    }

    constructor ()
      ensures Valid() && captures == [] && stored == [] && popped == 0 && fresh(ring) && fresh(ring.buf)
    {
      ring := new Ring<EdgeEvent>(EDGE_RING);
      side, dropped := TICK, 0;
      captures, stored, popped := [], [], 0;
    }

    /** Every capture since the reset is delivered, still in the ring, or counted as dropped. */
    lemma CapturesAreConserved()
      requires Valid()
      ensures Wrap32(|captures|) == Wrap32(popped + |ring.Contents()| + dropped)
    {
      SumWraps(|stored|, |captures| - |stored|);
    }

    /** resetCaptureSoftwareState */
    method Reset()
      requires Valid()
      modifies this, ring
      ensures Valid() && captures == [] && stored == [] && popped == 0
    {
      ring.Clear();
      side, dropped := TICK, 0;
      captures, stored, popped := [], [], 0;
    }

    /** TCB1_INT_vect: the side advances whether or not the edge finds room. */
    method CaptureIsr(edge32: u32)
      requires Valid()
      modifies this, ring, ring.buf
      ensures Valid() && captures == old(captures) + [edge32] && popped == old(popped)
      ensures stored == old(stored) || stored == old(stored) + [|old(captures)|]
      ensures stored != old(stored) <==> |old(stored)| - old(popped) < EDGE_RING - 1
      ensures Taken() == StoreOne(old(Taken()))
    {
      hide Stored, Events, SideOf, Opposite, Wrap32, Increasing;
      ghost var k, waiting := |captures|, stored[popped..];
      StillIncreasing(stored, popped, k);
      EventsGrow(captures, waiting, edge32);
      SidesAlternate(k);
      CountUp(k - |stored|);
      captures := captures + [edge32];
      var ok := ring.Push(EdgeEvent(edge32, side));
      if ok {
        EventsAppend(captures, waiting, k);
        assert (stored + [k])[popped..] == waiting + [k];
        stored := stored + [k];
      } else {
        dropped := (dropped + 1) % TWO32;
      }
      side := Opposite(side);
    }

    method TryPopEdge() returns (e: Option<EdgeEvent>)
      requires Valid()
      modifies this`popped, ring`tail
      ensures Valid() && (e.None? <==> old(popped) == |stored|)
      ensures e.None? ==> popped == old(popped)
      ensures e.Some? ==> popped == old(popped) + 1 <= |stored| && stored[old(popped)] < |captures|
      ensures e.Some? ==> e.value == EdgeEvent(captures[stored[old(popped)]], SideOf(stored[old(popped)]))
    {
      ghost var before := ring.Contents();
      e := ring.Pop();
      if e.Some? {
        assert before[0] == e.value && before[1..] == ring.Contents();
        assert stored[popped..][1..] == stored[popped + 1..];
        popped := popped + 1;
      }
    }
  }

  lemma SidesAlternate(k: nat)
    ensures SideOf(k + 1) == Opposite(SideOf(k))
  {
  }

  lemma SumWraps(a: int, b: int)
    ensures Wrap32(a + Wrap32(b)) == Wrap32(a + b)
  {
  }

  lemma CountUp(n: int)
    ensures (Wrap32(n) + 1) % TWO32 == Wrap32(n + 1)
  {
  }

  lemma StillIncreasing(idx: seq<nat>, from: nat, k: nat)
    requires Increasing(idx, k) && from <= |idx|
    ensures Increasing(idx, k + 1) && Increasing(idx + [k], k + 1)
    ensures forall i :: 0 <= i < |idx| - from ==> idx[from..][i] < k
  {
  }

  predicate Increasing(idx: seq<nat>, bound: nat) {
    && (forall i :: 0 <= i < |idx| ==> idx[i] < bound)
    && (forall i, j :: 0 <= i < j < |idx| ==> idx[i] < idx[j])
  }

  /** The events stored for these capture positions. */
  function Events(captures: seq<u32>, idx: seq<nat>): (es: seq<EdgeEvent>)
    requires forall i :: 0 <= i < |idx| ==> idx[i] < |captures|
    ensures |es| == |idx|
  {
    seq(|idx|, i requires 0 <= i < |idx| => EdgeEvent(captures[idx[i]], SideOf(idx[i])))
  }

  lemma EventsGrow(captures: seq<u32>, idx: seq<nat>, edge: u32)
    requires forall i :: 0 <= i < |idx| ==> idx[i] < |captures|
    ensures Events(captures + [edge], idx) == Events(captures, idx)
  {
  }

  lemma EventsAppend(captures: seq<u32>, idx: seq<nat>, k: nat)
    requires k < |captures| && forall i :: 0 <= i < |idx| ==> idx[i] < |captures|
    ensures Events(captures, idx + [k]) == Events(captures, idx) + [EdgeEvent(captures[k], SideOf(k))]
  {
  }

  /** An edge that is a boundary and the last of a row. */
  predicate Completes(acc: seq<EdgeEvent>, e: EdgeEvent) {
    Accepts(acc, e) && |acc| > 0 && |acc| % 4 == 0
  }

  /** A row is queued exactly if a slot was free when it was completed. */
  predicate QueuedExactly(queued: seq<nat>, waitingAt: seq<nat>, completed: nat) {
    |waitingAt| == completed && forall n :: 0 <= n < completed ==> (n in queued <==> waitingAt[n] < ROW_RING - 1)
  }

  lemma OneMoreRow(queued: seq<nat>, waitingAt: seq<nat>, completed: nat, waiting: nat)
    requires Increasing(queued, completed) && QueuedExactly(queued, waitingAt, completed)
    ensures var queued' := if waiting < ROW_RING - 1 then queued + [completed] else queued;
      QueuedExactly(queued', waitingAt + [waiting], completed + 1)
  {
  }

  function Counting(from: nat, n: nat): (s: seq<nat>)
    ensures |s| == n && forall i :: 0 <= i < n ==> s[i] == from + i
  {
    seq(n, i => from + i)
  }

  lemma CountingOn(from: nat, m: nat, n: nat)
    ensures Counting(from, m) + Counting(from + m, n) == Counting(from, m + n)
  {
  }

  /** The rows queued so far, how many of them wait, and how many rows were completed. */
  datatype RowQueue = RowQueue(queued: seq<nat>, waiting: nat, completed: nat)

  /** Without emission the rows completed meanwhile are queued one after the other until seven
      wait, and those after them are not. */
  predicate Fills(q: RowQueue, r: RowQueue) {
    && q.completed <= r.completed && r.waiting == Min(q.waiting + (r.completed - q.completed), ROW_RING - 1)
    && q.waiting <= r.waiting && r.queued == q.queued + Counting(q.completed, r.waiting - q.waiting)
  }

  /** One more completed row. */
  function Offer(q: RowQueue): RowQueue {
    if q.waiting < ROW_RING - 1 then RowQueue(q.queued + [q.completed], q.waiting + 1, q.completed + 1)
    else q.(completed := q.completed + 1)
  }

  /** The count of sends that failed, after a pass that ended with one, or did not. */
  function Failures(n: u32, failed: bool): u32 {
    if failed then (n + 1) % TWO32 else n
  }

  lemma OfferCompletes(q: RowQueue)
    ensures Offer(q).completed == q.completed + 1
  {
  }

  lemma FillsNone(q: RowQueue)
    requires q.waiting < ROW_RING
    ensures Fills(q, q)
  {
    assert q.queued + Counting(q.completed, 0) == q.queued;
  }

  lemma FillsOne(q: RowQueue)
    requires q.waiting < ROW_RING
    ensures Fills(q, Offer(q))
  {
    assert q.queued + Counting(q.completed, 0) == q.queued;
    assert Counting(q.completed, 1) == [q.completed];
  }

  lemma FillsOn(q: RowQueue, r: RowQueue, s: RowQueue)
    requires Fills(q, r) && Fills(r, s)
    ensures Fills(q, s)
  {
    hide Counting;
    CountingOn(q.completed, r.waiting - q.waiting, s.waiting - r.waiting);
    assert s.queued == q.queued + (Counting(q.completed, r.waiting - q.waiting)
                                   + Counting(r.completed, s.waiting - r.waiting));
    if r.waiting < ROW_RING - 1 {
      assert r.completed == q.completed + (r.waiting - q.waiting);
    } else {
      assert s.waiting == r.waiting;
      CountingNone(r.completed);
      CountingNone(q.completed + (r.waiting - q.waiting));
    }
  }

  lemma CountingNone(from: nat)
    ensures Counting(from, 0) == []
  {
  }

  lemma PlaceInRow(n: nat, rows: nat, place: nat)
    requires n == 4 * rows + place && 1 <= place <= 4
    ensures n % 4 == 0 <==> place == 4
  {
  }

  /** Row boundaries so far, completed rows, and what became of them. */
  class SwingAssembler {
    const rows: Ring<FullSwing>
    var swingState: nat
    var curr: FullSwing
    var swingSeq: u32
    var transportDrops: u32
    var emitFailures: u32
    /** All boundaries since boot; the rows completed; those of them that were queued, by
        number; how many of these were sent and retired; and the rows sent. */
    ghost var boundaries: seq<EdgeEvent>
    ghost var completed: nat
    ghost var queued: seq<nat>
    ghost var retired: nat
    ghost var sent: seq<FullSwing>
    /** How many rows were waiting when each row was completed. */
    ghost var waitingAt: seq<nat>

    ghost predicate Valid()
      reads this, rows, rows.buf
    {
      && rows.Valid() && rows.buf.Length == ROW_RING
      && Assembling() && Queued()
    }

    /** The row in progress holds the latest boundaries, and its number. */
    ghost predicate Assembling()
      reads this`boundaries, this`completed, this`swingState, this`swingSeq, this`curr
    {
      if |boundaries| == 0 then swingState == 0 && completed == 0 && swingSeq == 0
      else
        var first := 4 * completed;
        && 1 <= swingState <= 4 && |boundaries| == first + swingState
        && boundaries[|boundaries| - 1].side == (if swingState == 1 || swingState == 3 then TICK else TOCK)
        && swingSeq == Wrap32(completed + 1) && curr.seqNo == swingSeq
        && curr.edge0 == boundaries[first].ticks
        && (swingState > 1 ==> curr.edge1 == boundaries[first + 1].ticks)
        && (swingState > 2 ==> curr.edge2 == boundaries[first + 2].ticks)
        && (swingState > 3 ==> curr.edge3 == boundaries[first + 3].ticks)
    }

    /** Completed rows are retired, still queued in order, or counted as dropped. */
    ghost predicate Queued()
      reads this`boundaries, this`completed, this`queued, this`retired, this`sent, this`transportDrops, this`waitingAt,
            rows, rows.buf
      requires rows.Valid()
    {
      && QueuedExactly(queued, waitingAt, completed)
      && Increasing(queued, completed) && (completed > 0 ==> 4 * completed < |boundaries|)
      && transportDrops == Wrap32(completed - |queued|) && retired <= |queued|
      && rows.Contents() == Rows(boundaries, queued[retired..]) && sent == Rows(boundaries, queued[..retired])
    }

    ghost function Queue(): (q: RowQueue)
      reads this`queued, this`completed, rows, rows.buf
      ensures rows.Valid() ==> q.waiting < rows.buf.Length
    {
      RowQueue(queued, if rows.Valid() then |rows.Contents()| else 0, completed)
    }

    constructor ()
      ensures Valid() && boundaries == [] && sent == [] && fresh(rows) && fresh(rows.buf)
    {
      rows := new Ring<FullSwing>(ROW_RING);
      swingState, swingSeq, transportDrops, emitFailures := 0, 0, 0, 0;
      curr := FullSwing(0, 0, 0, 0, 0, 0);
      boundaries, completed, queued, retired, sent, waitingAt := [], 0, [], 0, [], [];
    }

    /** Every completed row is sent, still waiting, or counted as dropped. */
    lemma RowsAreConserved()
      requires Valid()
      ensures Wrap32(completed) == Wrap32(|sent| + |rows.Contents()| + transportDrops)
      ensures |sent| == retired
    {
      SumWraps(|queued|, completed - |queued|);
    }

    /** In every reachable state the completed rows that were dropped are exactly those at whose
        completion seven rows were waiting. */
    lemma RowIsDroppedIffFull(n: nat)
      requires Valid() && n < completed
      ensures |waitingAt| == completed && (n !in queued <==> waitingAt[n] >= ROW_RING - 1)
    {
    }

    /** swing_push: the completed row is queued, or dropped and counted when the ring is full. */
    method PushRow(row: FullSwing)
      requires rows.Valid() && rows.buf.Length == ROW_RING && Queued()
      requires 4 * completed + 4 < |boundaries| && row == Row(boundaries, completed)
      modifies this`transportDrops, this`queued, this`completed, this`waitingAt, rows`head, rows.buf
      ensures rows.Valid() && Queued() && Queue() == Offer(old(Queue()))
      ensures waitingAt == old(waitingAt) + [|old(rows.Contents())|]
    {
      hide Stored, Row, Rows, Wrap32, Increasing, QueuedExactly;
      ghost var waiting := |rows.Contents()|;
      OneMoreRow(queued, waitingAt, completed, waiting);
      StillIncreasing(queued, retired, completed);
      CountUp(completed - |queued|);
      var ok := rows.Push(row);
      if ok {
        RowsAppend(boundaries, queued[retired..], completed);
        assert (queued + [completed])[retired..] == queued[retired..] + [completed];
        assert (queued + [completed])[..retired] == queued[..retired];
        queued := queued + [completed];
      } else {
        transportDrops := (transportDrops + 1) % TWO32;
      }
      waitingAt := waitingAt + [waiting];
      completed := completed + 1;
    }

    /** A new boundary leaves every queued and sent row as it was. */
    ghost method NoteBoundary(e: EdgeEvent)
      requires rows.Valid() && Queued()
      modifies this`boundaries
      ensures Queued() && boundaries == old(boundaries) + [e]
    {
      hide Stored, Rows, QueuedExactly;
      RowsStable(boundaries, queued[retired..], e);
      RowsStable(boundaries, queued[..retired], e);
      boundaries := boundaries + [e];
    }

    /** The first boundary since boot. */
    method StartFirst(e: EdgeEvent)
      requires Valid() && swingState == 0 && e.side == TICK
      modifies this`boundaries, this`swingSeq, this`curr, this`swingState
      ensures Valid() && boundaries == old(boundaries) + [e]
    {
      hide Queued;
      NoteBoundary(e);
      swingSeq := (swingSeq + 1) % TWO32;
      curr := curr.(seqNo := swingSeq, edge0 := e.ticks);
      swingState := 1;
    }

    /** An inner boundary of the row in progress. */
    method AddInner(e: EdgeEvent)
      requires Valid() && 1 <= swingState <= 3 && Accepts(boundaries, e)
      modifies this`boundaries, this`curr, this`swingState
      ensures Valid() && boundaries == old(boundaries) + [e]
    {
      hide Queued;
      NoteBoundary(e);
      if swingState == 1 {
        curr := curr.(edge1 := e.ticks);
      } else if swingState == 2 {
        curr := curr.(edge2 := e.ticks);
      } else {
        curr := curr.(edge3 := e.ticks);
      }
      swingState := swingState + 1;
    }

    /** The last boundary of the row in progress completes it. */
    method CompleteRow(e: EdgeEvent)
      requires Valid() && swingState == 4
      modifies this`boundaries, this`curr
      ensures rows.Valid() && Queued() && boundaries == old(boundaries) + [e]
      ensures |boundaries| == 4 * completed + 5 && curr == Row(boundaries, completed)
    {
      hide Queued, Stored;
      NoteBoundary(e);
      curr := curr.(edge4 := e.ticks);
    }

    /** The finished row is pushed, and its last edge is the first of the next row. */
    method FinishRow(e: EdgeEvent)
      requires Valid() && swingState == 4 && Accepts(boundaries, e)
      modifies this`boundaries, this`curr, this`swingState, this`swingSeq, this`transportDrops, this`queued,
               this`completed, this`waitingAt, rows`head, rows.buf
      ensures Valid() && boundaries == old(boundaries) + [e]
      ensures Queue() == Offer(old(Queue())) && waitingAt == old(waitingAt) + [|old(rows.Contents())|]
    {
      hide Queued, Stored, Row, Offer;
      NextNumber(completed, swingSeq);
      CompleteRow(e);
      OfferCompletes(Queue());
      PushRow(curr);
      swingSeq := (swingSeq + 1) % TWO32;
      curr := curr.(seqNo := swingSeq, edge0 := e.ticks);
      swingState := 1;
    }

    /** The state tells how many boundaries the row in progress has, and the side awaited. */
    lemma Place()
      requires Valid()
      ensures swingState <= 4 && (swingState == 4 <==> |boundaries| > 0 && |boundaries| % 4 == 0)
      ensures Awaited(boundaries) == if swingState == 1 || swingState == 3 then TOCK else TICK
    {
      hide Queued;
      if |boundaries| > 0 {
        PlaceInRow(|boundaries|, completed, swingState);
      }
    }

    /** One delivered edge: a boundary if it is of the expected side, otherwise ignored. It
        completes a row if it is the fifth boundary of one, and only then changes the queue. */
    method ProcessEdge(e: EdgeEvent)
      requires Valid()
      modifies this`boundaries, this`curr, this`swingState, this`swingSeq, this`transportDrops, this`queued,
               this`completed, this`waitingAt, rows`head, rows.buf
      ensures Valid() && boundaries == if Accepts(old(boundaries), e) then old(boundaries) + [e] else old(boundaries)
      ensures Queue() == if Completes(old(boundaries), e) then Offer(old(Queue())) else old(Queue())
      ensures waitingAt ==
              old(waitingAt) + if Completes(old(boundaries), e) then [|old(rows.Contents())|] else []
    {
      Place();
      hide Stored, Rows, Queued, Offer, Assembling, Awaited;
      match swingState {
        case 0 =>
          if e.side == TICK {
            StartFirst(e);
          }
        case 1 =>
          if e.side == TOCK {
            AddInner(e);
          }
        case 2 =>
          if e.side == TICK {
            AddInner(e);
          }
        case 3 =>
          if e.side == TOCK {
            AddInner(e);
          }
        case _ =>
          if e.side == TICK {
            FinishRow(e);
          }
      }
    }

    /** The emit loop: rows leave in order, each only after a send that succeeded. */
    method EmitRows(budget: nat, ready: bool, sends: seq<bool>)
      requires Valid() && |sends| == budget
      modifies this`retired, this`sent, this`emitFailures, rows`tail
      ensures Valid() && old(sent) <= sent && |sent| <= |old(sent)| + budget
      ensures old(rows.Contents()) == sent[|old(sent)|..] + rows.Contents()
      ensures forall i :: 0 <= i < |sent| - |old(sent)| ==> sends[i]
      ensures |sent| - |old(sent)| < budget && ready && rows.Contents() != [] ==> !sends[|sent| - |old(sent)|]
      ensures !ready ==> sent == old(sent)
      ensures emitFailures ==
              Failures(old(emitFailures), |sent| - |old(sent)| < budget && ready && rows.Contents() != [])
    {
      hide Stored, Assembling, Queued, Rows;
      ghost var before, waiting := sent, rows.Contents();
      assert sent[|before|..] == [];
      var i := 0;
      while i < budget
        invariant 0 <= i <= budget && Valid() && before <= sent && |sent| == |before| + i
        invariant waiting == sent[|before|..] + rows.Contents()
        invariant forall j :: 0 <= j < i ==> sends[j]
        invariant !ready ==> i == 0
        invariant emitFailures == old(emitFailures)
      {
        var row := rows.Peek();
        if row.None? || !ready {
          return;
        }
        if !sends[i] {
          emitFailures := (emitFailures + 1) % TWO32;
          return;
        }
        MoveOne(sent, before, rows.Contents());
        RetireOldest();
        i := i + 1;
      }
    }

    method RetireOldest()
      requires Valid() && rows.Contents() != []
      modifies this`retired, this`sent, rows`tail
      ensures Valid() && sent == old(sent) + [old(rows.Contents())[0]] && old(rows.Contents())[1..] == rows.Contents()
    {
      hide Stored, Assembling;
      var row := rows.Pop();
      RowsSplit(boundaries, queued, retired);
      sent := sent + [row.value];
      retired := retired + 1;
    }
  }

  lemma MoveOne(sent: seq<FullSwing>, before: seq<FullSwing>, waiting: seq<FullSwing>)
    requires before <= sent && waiting != []
    ensures sent[|before|..] + waiting == (sent + [waiting[0]])[|before|..] + waiting[1..]
  {
  }

  lemma NextNumber(n: nat, number: u32)
    requires number == Wrap32(n + 1)
    ensures (number + 1) % TWO32 == Wrap32(n + 2)
  {
  }

  function Event(captures: seq<u32>, k: nat): EdgeEvent
    requires k < |captures|
  {
    EdgeEvent(captures[k], SideOf(k))
  }

  lemma BoundariesAppend(acc: seq<EdgeEvent>, events: seq<EdgeEvent>, e: EdgeEvent)
    ensures var before := Boundaries(acc, events);
      Boundaries(acc, events + [e]) == if Accepts(before, e) then before + [e] else before
  {
    assert (events + [e])[..|events|] == events;
  }

  lemma RowsSplit(acc: seq<EdgeEvent>, ns: seq<nat>, k: nat)
    requires k < |ns|
    ensures Rows(acc, ns[..k + 1]) == Rows(acc, ns[..k]) + [Rows(acc, ns[k..])[0]]
    ensures Rows(acc, ns[k..])[1..] == Rows(acc, ns[k + 1..])
  {
  }

  /** The rows with these numbers. */
  function Rows(acc: seq<EdgeEvent>, ns: seq<nat>): (rs: seq<FullSwing>)
    ensures |rs| == |ns|
  {
    seq(|ns|, i requires 0 <= i < |ns| =>
      if 4 * ns[i] + 4 < |acc| then Row(acc, ns[i]) else FullSwing(0, 0, 0, 0, 0, 0))
  }

  lemma RowsAppend(acc: seq<EdgeEvent>, ns: seq<nat>, n: nat)
    requires 4 * n + 4 < |acc|
    ensures Rows(acc, ns + [n]) == Rows(acc, ns) + [Row(acc, n)]
  {
  }

  lemma RowsStable(acc: seq<EdgeEvent>, ns: seq<nat>, e: EdgeEvent)
    requires forall i :: 0 <= i < |ns| ==> 4 * ns[i] + 4 < |acc|
    ensures Rows(acc + [e], ns) == Rows(acc, ns)
  {
  }
}
