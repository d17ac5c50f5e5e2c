/** A power-of-two ring with one slot kept free, as between interrupt and main loop
    (PendulumCapture.cpp) and between assembler and sender (SwingAssembler.cpp). */
module BoundedRing {
  import opened Words

  /** The stored elements, oldest first. */
  function Stored<T>(buf: seq<T>, tail: nat, head: nat): (s: seq<T>)
    requires tail < |buf| && head < |buf|
    ensures |s| == if tail <= head then head - tail else |buf| - tail + head
  {
    if tail <= head then buf[tail..head] else buf[tail..] + buf[..head]
  }

  function Following(i: nat, size: nat): nat {
    if i + 1 == size then 0 else i + 1
  }

  /** `(i + 1) & (size - 1)` for a power-of-two size. */
  function Masked(i: nat, size: nat): nat
    requires size > 0
  {
    i % size
  }

  lemma MaskedIsFollowing(i: nat, size: nat)
    requires i < size
    ensures Masked(i + 1, size) == Following(i, size)
  {
    if i + 1 == size {
      assert size == 1 * size + 0;
    }
  }

  lemma StoredAfterPush<T>(buf: seq<T>, tail: nat, head: nat, x: T)
    requires tail < |buf| && head < |buf| && Following(head, |buf|) != tail
    ensures Stored(buf[head := x], tail, Following(head, |buf|)) == Stored(buf, tail, head) + [x]
  {
    var next := buf[head := x];
    if tail <= head {
      if head + 1 == |buf| {
        assert next[tail..] + next[..0] == buf[tail..head] + [x];
      } else {
        assert next[tail..head + 1] == buf[tail..head] + [x];
      }
    } else {
      assert next[tail..] + next[..head + 1] == buf[tail..] + buf[..head] + [x];
    }
  }

  lemma DropFirst<T>(s: seq<T>, lo: nat, hi: nat)
    requires lo < hi <= |s|
    ensures s[lo..hi] == [s[lo]] + s[lo + 1..hi]
  {
  }

  lemma StoredAfterPop<T>(buf: seq<T>, tail: nat, head: nat)
    requires tail < |buf| && head < |buf| && tail != head
    ensures Stored(buf, tail, head) == [buf[tail]] + Stored(buf, Following(tail, |buf|), head)
  {
    if tail < head {
      DropFirst(buf, tail, head);
    } else {
      DropFirst(buf, tail, |buf|);
      var first, rest, wrapped := [buf[tail]], buf[tail + 1..], buf[..head];
      assert buf[tail..] == first + rest;
      assert (first + rest) + wrapped == first + (rest + wrapped);
      if tail + 1 == |buf| {
        assert rest + wrapped == buf[0..head];
      }
    }
  }

  lemma FullMeansOneFree(tail: nat, head: nat, size: nat)
    requires tail < size && head < size
    ensures Following(head, size) != tail <==> (if tail <= head then head - tail else size - tail + head) < size - 1
    ensures Following(head, size) < size
  {
  }

  class Ring<T(0)> {
    const buf: array<T>
    var head: u8
    var tail: u8

    ghost predicate Valid()
      reads this, buf
    {
      1 < buf.Length <= 0x80 && head < buf.Length && tail < buf.Length
    }

    ghost function Contents(): (s: seq<T>)
      requires Valid()
      reads this, buf
      ensures |s| < buf.Length
    {
      Stored(buf[..], tail, head)
    }

    constructor (size: nat)
      requires 1 < size <= 0x80
      ensures Valid() && Contents() == [] && fresh(buf) && buf.Length == size
    {
      buf := new T[size];
      head, tail := 0, 0;
    }

    /** Stores the element, or drops it when no slot is free; what is stored stays. */
    method Push(x: T) returns (stored: bool)
      requires Valid()
      modifies this`head, buf
      ensures Valid() && (stored <==> |old(Contents())| < buf.Length - 1)
      ensures Contents() == if stored then old(Contents()) + [x] else old(Contents())
    {
      hide Stored, Following, Masked;
      MaskedIsFollowing(head, buf.Length);
      var next := Masked(head + 1, buf.Length);
      FullMeansOneFree(tail, head, buf.Length);
      stored := next != tail;
      if stored {
        StoredAfterPush(buf[..], tail, head, x);
        ghost var before := buf[..];
        buf[head] := x;
        assert buf[..] == before[head := x];
        head := next;
      }
    }

    method Pop() returns (x: Option<T>)
      requires Valid()
      modifies this`tail
      ensures Valid() && (x.None? <==> old(Contents()) == [])
      ensures x.None? ==> Contents() == []
      ensures x.Some? ==> old(Contents()) == [x.value] + Contents()
    {
      hide Stored, Masked;
      if tail == head {
        return None;
      }
      StoredAfterPop(buf[..], tail, head);
      MaskedIsFollowing(tail, buf.Length);
      x := Some(buf[tail]);
      tail := Masked(tail + 1, buf.Length);
    }

    method Peek() returns (x: Option<T>)
      requires Valid()
      ensures x == if Contents() == [] then None else Some(Contents()[0])
    {
      hide Stored;
      if tail == head {
        return None;
      }
      StoredAfterPop(buf[..], tail, head);
      x := Some(buf[tail]);
    }

    method Clear()
      requires Valid()
      modifies this`head, this`tail
      ensures Valid() && Contents() == []
    {
      head, tail := 0, 0;
    }
  }
}
