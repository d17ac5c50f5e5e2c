/** mad_from_residuals (FreqDiscipliner.cpp): the median distance of the residuals'
    magnitudes from their own median. */
module MedianDeviation {
  import opened Words
  import opened OrderStatistics
  import RingWindow

  function Magnitudes(r: seq<int>): (m: seq<int>)
    ensures |m| == |r|
  {
    seq(|r|, i requires 0 <= i < |r| => Abs(r[i]))
  }

  function Distances(m: seq<int>, c: int): (d: seq<int>)
    ensures |d| == |m|
  {
    seq(|m|, i requires 0 <= i < |m| => AbsDiff(m[i], c))
  }

  function MedianOf(s: seq<int>): int
    requires |s| > 0
  {
    Kth(s, |s| / 2)
  }

  function Mad(r: seq<int>): int {
    if |r| == 0 then 0 else
      var m := Magnitudes(r);
      MedianOf(Distances(m, MedianOf(m)))
  }

  method FillMagnitudes(residuals: array<int>, n: nat, mags: array<int>, ghost r: seq<int>)
    requires n == mags.Length <= residuals.Length && mags != residuals && residuals[..n] == r
    modifies mags
    ensures mags[..n] == Magnitudes(r)
  {
    var i := 0;
    while i < n
      invariant 0 <= i <= n
      invariant forall j :: 0 <= j < i ==> mags[j] == Abs(r[j])
    {
      mags[i] := Abs(residuals[i]);
      i := i + 1;
    }
  }

  method FillDistances(residuals: array<int>, n: nat, med: int, mags: array<int>, ghost r: seq<int>)
    requires n == mags.Length <= residuals.Length && mags != residuals && residuals[..n] == r
    modifies mags
    ensures mags[..n] == Distances(Magnitudes(r), med)
  {
    var i := 0;
    while i < n
      invariant 0 <= i <= n
      invariant forall j :: 0 <= j < i ==> mags[j] == AbsDiff(Abs(r[j]), med)
    {
      var a := Abs(residuals[i]);
      mags[i] := if a > med then a - med else med - a;
      i := i + 1;
    }
  }

  method MadFromResiduals(residuals: array<int>, n: nat) returns (mad: int)
    requires n <= residuals.Length
    ensures mad == Mad(residuals[..n])
  {
    hide Kth, Sort, Magnitudes, Distances;
    ghost var r := residuals[..n];
    if n == 0 {
      return 0;
    }
    var mags := new int[n];
    FillMagnitudes(residuals, n, mags, r);
    var med := Median(mags, n);
    assert med == MedianOf(Magnitudes(r));
    assert residuals[..n] == r;
    FillDistances(residuals, n, med, mags, r);
    mad := Median(mags, n);
    assert residuals[..n] == r;
  }

  lemma MedianOfRotation(x: seq<int>, y: seq<int>)
    requires |x + y| > 0
    ensures MedianOf(x + y) == MedianOf(y + x)
  {
    SortOfPermutation(x + y, y + x);
  }

  lemma MadOfRotation(x: seq<int>, y: seq<int>)
    ensures Mad(x + y) == Mad(y + x)
  {
    if |x + y| > 0 {
      hide MedianOf;
      var mx, my := Magnitudes(x), Magnitudes(y);
      assert Magnitudes(x + y) == mx + my && Magnitudes(y + x) == my + mx;
      MedianOfRotation(mx, my);
      var c := MedianOf(mx + my);
      assert Distances(mx + my, c) == Distances(mx, c) + Distances(my, c);
      assert Distances(my + mx, c) == Distances(my, c) + Distances(mx, c);
      MedianOfRotation(Distances(mx, c), Distances(my, c));
    }
  }

  /** The order in which the ring holds the residuals does not matter. */
  lemma MadOfRing(ring: seq<int>, head: nat, fill: nat)
    requires RingWindow.WellFormed(ring, head, fill)
    ensures Mad(ring[..fill]) == Mad(RingWindow.Window(ring, head, fill))
  {
    if fill == |ring| {
      assert ring[..fill] == ring[..head] + ring[head..];
      MadOfRotation(ring[..head], ring[head..]);
    }
  }
}
