/** A fixed ring written at a moving head, read as the window of the latest values. */
module RingWindow {
  import opened Words

  predicate WellFormed<T>(ring: seq<T>, head: nat, fill: nat) {
    head < |ring| && fill <= |ring| && (fill < |ring| ==> head == fill)
  }

  /** The stored values, oldest first. */
  function Window<T>(ring: seq<T>, head: nat, fill: nat): (w: seq<T>)
    requires WellFormed(ring, head, fill)
    ensures |w| == fill
  {
    if fill < |ring| then ring[..fill] else ring[head..] + ring[..head]
  }

  function Last<T>(s: seq<T>, n: nat): seq<T> {
    if |s| <= n then s else s[|s| - n..]
  }

  function Next(head: nat, size: nat): nat {
    if head + 1 == size then 0 else head + 1
  }

  /** Writing at the head and advancing it appends to the window and forgets the oldest. */
  lemma PushKeepsLatest<T>(ring: seq<T>, head: nat, fill: nat, v: T)
    requires WellFormed(ring, head, fill)
    ensures var fill' := if fill < |ring| then fill + 1 else fill;
      && WellFormed(ring[head := v], Next(head, |ring|), fill')
      && Window(ring[head := v], Next(head, |ring|), fill') == Last(Window(ring, head, fill) + [v], |ring|)
  {
    var n := |ring|;
    var next := ring[head := v];
    if fill < n {
      assert Window(ring, head, fill) + [v] == next[..fill + 1];
      assert fill + 1 == n ==> next[0..] + next[..0] == next[..fill + 1];
    } else if head + 1 == n {
      assert next[0..] + next[..0] == next;
      assert ring[head..] == [ring[head]];
      assert (([ring[head]] + ring[..head]) + [v])[1..] == next;
    } else {
      assert ring[head..] == [ring[head]] + ring[head + 1..];
      assert next[head + 1..] == ring[head + 1..] && next[..head + 1] == ring[..head] + [v];
      assert (ring[head..] + ring[..head] + [v])[1..] == ring[head + 1..] + ring[..head] + [v];
    }
  }

  lemma WindowIsPermutation<T>(ring: seq<T>, head: nat, fill: nat)
    requires WellFormed(ring, head, fill)
    ensures multiset(ring[..fill]) == multiset(Window(ring, head, fill))
  {
    if fill == |ring| {
      assert ring[..fill] == ring[..head] + ring[head..];
    }
  }

  /** Keeping the last n step by step keeps the last n of everything. */
  lemma LastOfLast<T>(s: seq<T>, v: T, n: nat)
    ensures Last(Last(s, n) + [v], n) == Last(s + [v], n)
  {
  }
}
