/** Sorted order and order statistics; the in-place median of FreqDiscipliner.cpp and the
    in-place quickselect of PendulumTelemetry.cpp. */
module OrderStatistics {
  import opened Words

  predicate Sorted(s: seq<int>) {
    forall i, j :: 0 <= i < j < |s| ==> s[i] <= s[j]
  }

  function Insert(s: seq<int>, v: int): (r: seq<int>)
    ensures |r| == |s| + 1
  {
    if |s| == 0 || s[|s| - 1] <= v then s + [v] else Insert(s[..|s| - 1], v) + [s[|s| - 1]]
  }

  function Sort(s: seq<int>): (r: seq<int>)
    ensures |r| == |s|
  {
    if |s| == 0 then [] else Insert(Sort(s[..|s| - 1]), s[|s| - 1])
  }

  /** The k-th smallest value, counting from 0. */
  function Kth(s: seq<int>, k: nat): int
    requires k < |s|
  {
    Sort(s)[k]
  }

  lemma {:induction false} InsertAdds(s: seq<int>, v: int)
    ensures multiset(Insert(s, v)) == multiset(s) + multiset{v}
  {
    if |s| > 0 && s[|s| - 1] > v {
      assert s == s[..|s| - 1] + [s[|s| - 1]];
      InsertAdds(s[..|s| - 1], v);
    }
  }

  lemma {:induction false} InsertBounded(s: seq<int>, v: int, b: int)
    requires v <= b && forall i :: 0 <= i < |s| ==> s[i] <= b
    ensures forall i :: 0 <= i <= |s| ==> Insert(s, v)[i] <= b
  {
    if |s| > 0 && s[|s| - 1] > v {
      InsertBounded(s[..|s| - 1], v, b);
    }
  }

  lemma {:induction false} InsertSorts(s: seq<int>, v: int)
    requires Sorted(s)
    ensures Sorted(Insert(s, v))
  {
    if |s| > 0 && s[|s| - 1] > v {
      InsertSorts(s[..|s| - 1], v);
      InsertBounded(s[..|s| - 1], v, s[|s| - 1]);
    }
  }

  lemma {:induction false} SortSorts(s: seq<int>)
    ensures Sorted(Sort(s)) && multiset(Sort(s)) == multiset(s)
  {
    if |s| > 0 {
      SortSorts(s[..|s| - 1]);
      InsertSorts(Sort(s[..|s| - 1]), s[|s| - 1]);
      InsertAdds(Sort(s[..|s| - 1]), s[|s| - 1]);
      assert s == s[..|s| - 1] + [s[|s| - 1]];
    }
  }

  lemma LastIsLargest(a: seq<int>)
    requires Sorted(a) && |a| > 0
    ensures forall x :: x in multiset(a) ==> x <= a[|a| - 1]
    ensures multiset(a[..|a| - 1]) == multiset(a) - multiset{a[|a| - 1]} && a[|a| - 1] in multiset(a)
    ensures Sorted(a[..|a| - 1])
  {
    assert a == a[..|a| - 1] + [a[|a| - 1]];
    forall x | x in multiset(a) ensures x <= a[|a| - 1] {
      assert x in a;
    }
  }

  lemma SameLargest(a: seq<int>, b: seq<int>)
    requires Sorted(a) && Sorted(b) && multiset(a) == multiset(b) && |a| > 0
    ensures |a| == |b| && a[|a| - 1] == b[|b| - 1]
    ensures multiset(a[..|a| - 1]) == multiset(b[..|b| - 1]) && Sorted(a[..|a| - 1]) && Sorted(b[..|b| - 1])
  {
    hide Sorted;
    assert |a| == |multiset(a)| && |b| == |multiset(b)|;
    LastIsLargest(a);
    LastIsLargest(b);
    assert a[|a| - 1] <= b[|b| - 1] && b[|b| - 1] <= a[|a| - 1];
  }

  /** Sorted order is determined by the multiset of values. */
  lemma {:induction false} SortedIsUnique(a: seq<int>, b: seq<int>)
    requires Sorted(a) && Sorted(b) && multiset(a) == multiset(b)
    ensures a == b
    decreases |a|
  {
    hide Sorted;
    if |a| == 0 {
      assert |b| == |multiset(b)|;
    } else {
      SameLargest(a, b);
      SortedIsUnique(a[..|a| - 1], b[..|b| - 1]);
      Ends(a);
      Ends(b);
    }
  }

  lemma Ends(a: seq<int>)
    requires |a| > 0
    ensures a == a[..|a| - 1] + [a[|a| - 1]]
  {
  }

  lemma SortOfPermutation(a: seq<int>, b: seq<int>)
    requires multiset(a) == multiset(b)
    ensures Sort(a) == Sort(b)
  {
    SortSorts(a);
    SortSorts(b);
    SortedIsUnique(Sort(a), Sort(b));
  }

  function CountBelow(s: seq<int>, v: int): nat {
    if |s| == 0 then 0 else CountBelow(s[..|s| - 1], v) + (if s[|s| - 1] < v then 1 else 0)
  }

  lemma {:induction false} CountBelowSplits(s: seq<int>, v: int, k: nat)
    requires k <= |s|
    requires forall i :: 0 <= i < k ==> s[i] < v
    requires forall i :: k <= i < |s| ==> s[i] >= v
    ensures CountBelow(s, v) == k
  {
    if |s| > 0 {
      CountBelowSplits(s[..|s| - 1], v, if k == |s| then k - 1 else k);
    }
  }

  lemma {:induction false} CountBelowInsert(s: seq<int>, x: int, v: int)
    ensures CountBelow(Insert(s, x), v) == CountBelow(s, v) + (if x < v then 1 else 0)
  {
    if |s| == 0 || s[|s| - 1] <= x {
      assert (s + [x])[..|s|] == s;
    } else {
      var r := Insert(s[..|s| - 1], x);
      CountBelowInsert(s[..|s| - 1], x, v);
      assert (r + [s[|s| - 1]])[..|r|] == r;
    }
  }

  lemma {:induction false} CountBelowSort(s: seq<int>, v: int)
    ensures CountBelow(Sort(s), v) == CountBelow(s, v)
  {
    if |s| > 0 {
      CountBelowSort(s[..|s| - 1], v);
      CountBelowInsert(Sort(s[..|s| - 1]), s[|s| - 1], v);
    }
  }

  /** The k-th smallest is the one value that at most k values lie below and more than k do
      not exceed: an account of rank by counting alone. */
  lemma KthByCounting(s: seq<int>, k: nat, v: int)
    requires k < |s|
    ensures Kth(s, k) == v <==> CountBelow(s, v) <= k < CountBelow(s, v + 1)
  {
    SortSorts(s);
    CountBelowSort(s, v);
    CountBelowSort(s, v + 1);
    var t := Sort(s);
    RankIn(t, v);
    RankIn(t, v + 1);
  }

  lemma {:induction false} RankIn(t: seq<int>, v: int)
    requires Sorted(t)
    ensures CountBelow(t, v) <= |t|
    ensures forall i :: 0 <= i < |t| ==> (t[i] < v <==> i < CountBelow(t, v))
  {
    var k := 0;
    while k < |t| && t[k] < v
      invariant 0 <= k <= |t| && forall i :: 0 <= i < k ==> t[i] < v
    {
      k := k + 1;
    }
    CountBelowSplits(t, v, k);
  }

  // ---- median_u32: insertion sort of the first n cells ----

  lemma {:induction false} InsertAt(s: seq<int>, v: int, j: nat)
    requires j <= |s| && (j > 0 ==> s[j - 1] <= v)
    requires forall m :: j <= m < |s| ==> s[m] > v
    ensures Insert(s, v) == s[..j] + [v] + s[j..]
  {
    if j < |s| {
      var front := s[..|s| - 1];
      InsertAt(front, v, j);
      assert front[..j] == s[..j];
      assert front[j..] + [s[|s| - 1]] == s[j..];
    } else {
      assert s[..j] == s && s[j..] == [];
    }
  }

  /** Shifts larger values up to make room for cell i among the cells before it. */
  method InsertCell(vals: array<int>, i: nat)
    requires i < vals.Length
    modifies vals
    ensures vals[..i + 1] == Insert(old(vals[..i]), old(vals[i])) && vals[i + 1..] == old(vals[i + 1..])
  {
    hide Insert;
    ghost var s := vals[..i];
    var v := vals[i];
    var j := i;
    while j > 0 && vals[j - 1] > v
      invariant 0 <= j <= i
      invariant forall m :: 0 <= m < j ==> vals[m] == s[m]
      invariant forall m :: j < m <= i ==> vals[m] == s[m - 1]
      invariant forall m :: j <= m < i ==> s[m] > v
      invariant vals[i + 1..] == old(vals[i + 1..])
    {
      vals[j] := vals[j - 1];
      j := j - 1;
    }
    vals[j] := v;
    InsertAt(s, v, j);
    assert vals[..i + 1] == s[..j] + [v] + s[j..];
  }

  method Median(vals: array<int>, n: nat) returns (m: int)
    requires 0 < n <= vals.Length
    modifies vals
    ensures m == Kth(old(vals[..n]), n / 2)
    ensures vals[..n] == Sort(old(vals[..n])) && vals[n..] == old(vals[n..])
  {
    ghost var s := vals[..];
    var i := 1;
    assert Sort(s[..1]) == s[..1] by {
      assert s[..1][..0] == [];
    }
    while i < n
      invariant 1 <= i <= n
      invariant vals[..i] == Sort(s[..i]) && vals[i..] == s[i..]
    {
      assert vals[i] == vals[i..][0] == s[i];
      assert vals[i..][1..] == vals[i + 1..] && s[i..][1..] == s[i + 1..];
      InsertCell(vals, i);
      assert s[..i + 1][..i] == s[..i];
      i := i + 1;
    }
    assert s[..n] == old(vals[..n]);
    m := vals[..n][n / 2];
  }

  // ---- select_kth_u32: quickselect in place ----

  lemma JoinSorted(x: seq<int>, v: int, y: seq<int>)
    requires Sorted(x) && Sorted(y)
    requires forall i :: 0 <= i < |x| ==> x[i] <= v
    requires forall i :: 0 <= i < |y| ==> v <= y[i]
    ensures Sorted(x + [v] + y)
  {
  }

  lemma SortBounded(s: seq<int>, lo: int, hi: int)
    requires forall i :: 0 <= i < |s| ==> lo <= s[i] <= hi
    ensures forall i :: 0 <= i < |s| ==> lo <= Sort(s)[i] <= hi
  {
    hide Sort;
    SortSorts(s);
    forall i | 0 <= i < |s| ensures lo <= Sort(s)[i] <= hi {
      assert Sort(s)[i] in multiset(Sort(s));
      assert Sort(s)[i] in s;
    }
  }

  /** A value with nothing greater before it and nothing smaller after it is in place. */
  lemma CutSorts(a: seq<int>, k: nat, lo: int, hi: int)
    requires k < |a|
    requires forall i :: 0 <= i < k ==> lo <= a[i] <= a[k]
    requires forall i :: k < i < |a| ==> a[k] <= a[i] <= hi
    ensures Kth(a, k) == a[k]
  {
    hide Sort, Sorted;
    var x, y := a[..k], a[k + 1..];
    SortSorts(x);
    SortSorts(y);
    SortSorts(a);
    SortBounded(x, lo, a[k]);
    SortBounded(y, a[k], hi);
    var t := Sort(x) + [a[k]] + Sort(y);
    JoinSorted(Sort(x), a[k], Sort(y));
    assert a == x + [a[k]] + y;
    SortedIsUnique(t, Sort(a));
  }

  /** Cells left..right still to be searched lie between lo and hi, the rest outside. */
  ghost predicate Narrowed(s: seq<u32>, left: nat, right: nat, lo: u32, hi: u32)
    requires left <= right < |s|
  {
    && (forall i :: 0 <= i < left ==> s[i] <= lo)
    && (forall i :: left <= i <= right ==> lo <= s[i] <= hi)
    && (forall i :: right < i < |s| ==> hi <= s[i])
  }

  /** Cells left..right lie about the pivot in the cell `store`, the rest are as before. */
  ghost predicate Partitioned(before: seq<u32>, s: seq<u32>, left: nat, store: nat, right: nat, lo: u32, hi: u32)
    requires left <= store <= right < |s| && |before| == |s|
  {
    && lo <= s[store] <= hi
    && (forall i :: left <= i < store ==> lo <= s[i] <= s[store])
    && (forall i :: store < i <= right ==> s[store] <= s[i] <= hi)
    && (forall i :: 0 <= i < left || right < i < |s| ==> s[i] == before[i])
  }

  lemma PartitionNarrows(before: seq<u32>, s: seq<u32>, left: nat, store: nat, right: nat, lo: u32, hi: u32)
    requires left <= store <= right < |s| && |before| == |s|
    requires Narrowed(before, left, right, lo, hi) && Partitioned(before, s, left, store, right, lo, hi)
    ensures store > left ==> Narrowed(s, left, store - 1, lo, s[store])
    ensures store < right ==> Narrowed(s, store + 1, right, s[store], hi)
    ensures forall i :: 0 <= i < store ==> s[i] <= s[store]
    ensures forall i :: store < i < |s| ==> s[store] <= s[i]
  {
  }

  function Swapped(s: seq<u32>, i: nat, j: nat): (t: seq<u32>)
    requires i < |s| && j < |s|
    ensures |t| == |s| && multiset(t) == multiset(s)
  {
    s[i := s[j]][j := s[i]]
  }

  method Swap(values: array<u32>, n: nat, i: nat, j: nat)
    requires i < n && j < n <= values.Length
    modifies values
    ensures values[..n] == Swapped(old(values[..n]), i, j) && values[n..] == old(values[n..])
  {
    values[i], values[j] := values[j], values[i];
  }

  /** Of cells left..i those below the pivot are before `store`; the rest are as before. */
  ghost predicate Gathered(before: seq<u32>, s: seq<u32>, left: nat, store: nat, i: nat, right: nat, pivot: u32)
    requires left <= store <= i <= right < |s| && |before| == |s|
  {
    && (forall j :: left <= j < store ==> s[j] < pivot)
    && (forall j :: store <= j < i ==> s[j] >= pivot)
    && (forall j :: 0 <= j < left || right <= j < |s| ==> s[j] == before[j])
  }

  lemma GatherOne(before: seq<u32>, s: seq<u32>, left: nat, store: nat, i: nat, right: nat, pivot: u32)
    requires left <= store <= i < right < |s| && |before| == |s|
    requires Gathered(before, s, left, store, i, right, pivot)
    ensures s[i] < pivot ==> Gathered(before, Swapped(s, store, i), left, store + 1, i + 1, right, pivot)
    ensures s[i] >= pivot ==> Gathered(before, s, left, store, i + 1, right, pivot)
  {
  }

  predicate Within(s: seq<u32>, left: nat, right: nat, lo: u32, hi: u32)
    requires left <= right < |s|
  {
    forall i :: left <= i <= right ==> lo <= s[i] <= hi
  }

  lemma SwapWithin(s: seq<u32>, left: nat, right: nat, lo: u32, hi: u32, i: nat, j: nat)
    requires left <= i <= right < |s| && left <= j <= right && Within(s, left, right, lo, hi)
    ensures Within(Swapped(s, i, j), left, right, lo, hi)
  {
  }

  /** The values below the pivot move to the front of values[left..right). */
  method Gather(values: array<u32>, n: nat, left: nat, right: nat, pivot: u32, ghost lo: u32, ghost hi: u32)
    returns (store: nat)
    requires left < right < n <= values.Length && Within(values[..n], left, right, lo, hi)
    modifies values
    ensures left <= store <= right && Within(values[..n], left, right, lo, hi)
    ensures Gathered(old(values[..n]), values[..n], left, store, right, right, pivot)
    ensures multiset(values[..n]) == old(multiset(values[..n])) && values[n..] == old(values[n..])
  {
    hide Swapped, Within;
    ghost var before := values[..n];
    store := left;
    var i := left;
    while i < right
      invariant left <= store <= i <= right
      invariant Within(values[..n], left, right, lo, hi)
      invariant Gathered(before, values[..n], left, store, i, right, pivot)
      invariant multiset(values[..n]) == multiset(before) && values[n..] == old(values[n..])
    {
      hide Gathered;
      GatherOne(before, values[..n], left, store, i, right, pivot);
      if values[i] < pivot {
        SwapWithin(values[..n], left, right, lo, hi, store, i);
        Swap(values, n, store, i);
        store := store + 1;
      }
      i := i + 1;
    }
  }

  lemma PivotHome(before: seq<u32>, p: nat, s: seq<u32>, left: nat, store: nat, right: nat, lo: u32, hi: u32)
    requires left <= store <= right < |s| && left <= p <= right && |before| == |s|
    requires Within(s, left, right, lo, hi)
    requires Gathered(Swapped(before, p, right), s, left, store, right, right, before[p])
    ensures Partitioned(before, Swapped(s, right, store), left, store, right, lo, hi)
  {
  }

  /** One partition of values[left..right] about its middle cell. */
  method Partition(values: array<u32>, n: nat, left: nat, right: nat, ghost lo: u32, ghost hi: u32)
    returns (store: nat)
    requires left < right < n <= values.Length && Narrowed(values[..n], left, right, lo, hi)
    modifies values
    ensures left <= store <= right && Partitioned(old(values[..n]), values[..n], left, store, right, lo, hi)
    ensures multiset(values[..n]) == old(multiset(values[..n])) && values[n..] == old(values[n..])
  {
    ghost var before := values[..n];
    assert Within(before, left, right, lo, hi);
    hide Swapped, Within, Gathered, Narrowed, Partitioned;
    var pivotIndex := left + (right - left) / 2;
    var pivot := values[pivotIndex];
    SwapWithin(before, left, right, lo, hi, pivotIndex, right);
    Swap(values, n, pivotIndex, right);
    store := Gather(values, n, left, right, pivot, lo, hi);
    PivotHome(before, pivotIndex, values[..n], left, store, right, lo, hi);
    Swap(values, n, right, store);
  }

  /** Quickselect on the first n cells, with 8-bit bounds that never go below zero. */
  method SelectKth(values: array<u32>, n: u8, k: u8) returns (r: u32)
    requires k < n <= values.Length
    modifies values
    ensures r == Kth(old(values[..n]), k)
    ensures multiset(values[..n]) == old(multiset(values[..n])) && values[n..] == old(values[n..])
  {
    hide Kth, Narrowed, Partitioned;
    var left: u8, right: u8 := 0, n - 1;
    ghost var lo: u32, hi: u32 := 0, 0xFFFF_FFFF;
    AllInRange(values[..n], lo, hi);
    while left < right
      invariant left <= k <= right < n
      invariant Narrowed(values[..n], left, right, lo, hi)
      invariant multiset(values[..n]) == old(multiset(values[..n])) && values[n..] == old(values[n..])
      decreases right - left
    {
      ghost var before := values[..n];
      var store := Partition(values, n, left, right, lo, hi);
      PartitionNarrows(before, values[..n], left, store, right, lo, hi);
      if k == store {
        InPlace(old(values[..n]), values[..n], k);
        return values[store];
      }
      if k < store {
        right, hi := store - 1, values[store];
      } else {
        left, lo := store + 1, values[store];
      }
    }
    OneLeft(values[..n], k, lo, hi);
    InPlace(old(values[..n]), values[..n], k);
    r := values[left];
  }

  lemma AllInRange(s: seq<u32>, lo: u32, hi: u32)
    requires |s| > 0 && lo == 0 && hi == 0xFFFF_FFFF
    ensures Narrowed(s, 0, |s| - 1, lo, hi)
  {
  }

  lemma OneLeft(s: seq<u32>, k: nat, lo: u32, hi: u32)
    requires k < |s| && Narrowed(s, k, k, lo, hi)
    ensures forall i :: 0 <= i < k ==> s[i] <= s[k]
    ensures forall i :: k < i < |s| ==> s[k] <= s[i]
  {
  }

  lemma InPlace(before: seq<u32>, after: seq<u32>, k: nat)
    requires multiset(before) == multiset(after) && k < |after|
    requires forall i :: 0 <= i < k ==> after[i] <= after[k]
    requires forall i :: k < i < |after| ==> after[k] <= after[i]
    ensures |before| == |after| && Kth(before, k) == after[k]
  {
    hide Sort;
    assert |before| == |multiset(before)| && |after| == |multiset(after)|;
    SortOfPermutation(before, after);
    CutSorts(after, k, 0, 0xFFFF_FFFF);
  }

  /** percentile_u32_exact: the ceiling rank of a percentile. */
  method PercentileExact(values: array<u32>, n: u8, percentile: u8) returns (r: u32)
    requires 0 < n <= values.Length && percentile <= 100
    modifies values
    ensures r == Kth(old(values[..n]), Rank(n, percentile))
    ensures multiset(values[..n]) == old(multiset(values[..n])) && values[n..] == old(values[n..])
  {
    r := SelectKth(values, n, Rank(n, percentile));
  }

  /** The least rank with at least the given share of the other values at or below it; the
      16-bit intermediate product does not overflow. */
  function Rank(n: u8, percentile: u8): (k: u8)
    requires 0 < n && percentile <= 100
    ensures (n - 1) * percentile + 99 < TWO16
    ensures k < n && 100 * k >= (n - 1) * percentile
    ensures k > 0 ==> 100 * (k - 1) < (n - 1) * percentile
  {
    ShareBound(n - 1, percentile);
    ((n - 1) * percentile + 99) / 100
  }

  lemma ShareBound(m: nat, percentile: nat)
    requires percentile <= 100
    ensures 0 <= m * percentile <= m * 100
  {
  }
}
