/** Counting by finite sets. */
module FiniteSets {
  import opened Numbers

  /** The integers from l to h. */
  ghost function Interval(l: int, h: int): (s: set<int>)
    ensures forall v :: v in s <==> l <= v <= h
    ensures |s| == Max(0, h - l + 1)
    decreases Max(0, h - l + 1)
  {
    if h < l then {} else Interval(l, h - 1) + {h}
  }

  lemma {:induction false} SubsetSize<T>(a: set<T>, b: set<T>)
    requires a <= b
    ensures |a| <= |b|
  {
    if a != {} {
      var x :| x in a;
      SubsetSize(a - {x}, b - {x});
    }
  }

  lemma {:induction false} DistinctSize<T>(xs: seq<T>, values: set<T>)
    requires forall i :: 0 <= i < |xs| ==> xs[i] in values
    requires forall i, j :: 0 <= i < j < |xs| ==> xs[i] != xs[j]
    ensures |xs| <= |values|
  {
    if xs != [] {
      var n := |xs| - 1;
      DistinctSize(xs[..n], values - {xs[n]});
    }
  }
}
