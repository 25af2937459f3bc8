/** internal/hydrate/fanout.go: how many children each parent gets, and which
    parent ordinal each child row references. */
module Fanouts {
  import opened Numbers
  import opened Sums
  import opened Wrappers

  /** The children-per-parent facts of one reference. */
  datatype Fanout = Fanout(mean: real, p50: real, p95: real, max: real)

  /** math.Pow, kept abstract. */
  type Pow = (real, real) -> real

  /** What the body of the shape needs of math.Pow for bases of at least one. */
  ghost predicate GrowsWithExponent(pow: Pow) {
    forall b: real, s: real, t: real {:trigger pow(b, s), pow(b, t)} ::
      b >= 1.0 && 0.0 <= s <= t <= 1.0 ==> 1.0 <= pow(b, s) <= pow(b, t) <= b
  }

  function FanoutFacts(fo: Fanout, childN: int, parentN: int): (f: Fanout)
    requires parentN >= 1
    ensures f.mean > 0.0 && f.p50 > 0.0
    ensures f.p50 <= f.p95 <= f.max
    ensures fo.mean >= 1.0 ==> f.mean == fo.mean
  {
    var p50 := if fo.p50 <= 0.0 then fo.mean else fo.p50;
    var mean := if fo.mean <= 0.0 then p50 else fo.mean;
    var usable := mean > 0.0;
    var mean' := if usable then mean else MaxReal(1.0, childN as real / parentN as real);
    var p50' := if usable then p50 else mean';
    var p95 := if fo.p95 < p50' then p50' else fo.p95;
    var mx := if fo.max < p95 then p95 else fo.max;
    Fanout(mean', p50', p95, mx)
  }

  function Lerp(a: real, b: real, t: real): real {
    a + (b - a) * t
  }

  function GeomLerp(pow: Pow, a: real, b: real, t: real): real {
    if a <= 0.0 || b <= 0.0 then Lerp(a, b, t) else a * pow(b / a, t)
  }

  function BodyQuantile(pow: Pow, q: real, p50: real, p95: real): real {
    var floor := MaxReal(1.0, 2.0 * p50 - p95);
    if q <= 0.5 then Lerp(floor, p50, q / 0.5)
    else GeomLerp(pow, p50, p95, (q - 0.5) / 0.5)
  }

  function NonEmptyParents(f: Fanout, parentN: int, childN: int): (n: int)
    requires parentN >= 1 && f.mean > 0.0
    ensures 1 <= n <= parentN
  {
    Clamp(ToI64(Round(childN as real / f.mean) as real), 1, parentN)
  }

  /** The largest count, scaled to the children that are handed out. */
  function ScaledMax(f: Fanout, childN: int, declaredChild: int): real {
    f.max * if declaredChild > 0 then childN as real / declaredChild as real else 1.0
  }

  function Whale(f: Fanout, childN: int, declaredChild: int): (w: int)
    requires childN >= 1
    ensures 1 <= w <= childN
  {
    Clamp(ToI64(Round(ScaledMax(f, childN, declaredChild)) as real), 1, childN)
  }

  function BodyEnd(nonEmpty: int): (e: int)
    requires nonEmpty >= 1
    ensures 0 <= e <= nonEmpty - 1
  {
    Clamp(ToI64((0.95 * nonEmpty as real).Floor as real), 0, Max(nonEmpty - 1, 0))
  }

  /** Where the i-th parent sits within the body. */
  function Position(i: int, bodyEnd: int): real
    requires bodyEnd > 0
  {
    (i as real + 0.5) / bodyEnd as real
  }

  /** The child count a quantile value stands for. */
  function CountOf(x: real): int {
    Max(1, ToI64(Round(x) as real))
  }

  /** The count the facts give the i-th non-empty parent, before reconciliation. */
  function ShapeAt(pow: Pow, f: Fanout, nonEmpty: int, whale: int, i: int): int
    requires 0 <= i < nonEmpty
  {
    var bodyEnd := BodyEnd(nonEmpty);
    if i == nonEmpty - 1 then whale
    else if i < bodyEnd then
      CountOf(BodyQuantile(pow, Position(i, bodyEnd), f.p50, f.p95))
    else CountOf(f.p95)
  }

  /** The whole array before reconciliation: the shape, then childless parents. */
  function Shape(pow: Pow, f: Fanout, parentN: int, nonEmpty: int, whale: int): (s: seq<int>)
    requires 0 <= nonEmpty <= parentN
    ensures |s| == parentN
  {
    seq(parentN, i requires 0 <= i < parentN => if i < nonEmpty then ShapeAt(pow, f, nonEmpty, whale, i) else 0)
  }

  // ----- reconcile -----

  /** The body after d extra children were dealt round-robin from the bottom. */
  ghost predicate Grown(before: seq<int>, after: seq<int>, body: nat, d: nat)
    requires 1 <= body <= |before|
  {
    && |after| == |before|
    && (forall i :: 0 <= i < body ==> after[i] == before[i] + d / body + (if i < d % body then 1 else 0))
    && after[body..] == before[body..]
  }

  /** The body after every parent gave back k children and those from cut up gave
      one more, none going below one child. */
  ghost predicate Drained(before: seq<int>, after: seq<int>, body: nat, k: nat, cut: int)
    requires body <= |before|
  {
    && |after| == |before|
    && 0 <= cut <= body
    && (forall i :: 0 <= i < body ==> after[i] == Max(1, before[i] - k - (if i >= cut then 1 else 0)))
  }

  /** What reconcile leaves, stated outright. ReconciledUnique shows it leaves no choice. */
  ghost predicate Reconciled(before: seq<int>, after: seq<int>, nonEmpty: int, childN: int)
    requires 1 <= nonEmpty <= |before|
  {
    var sum := Sum(before[..nonEmpty]);
    var body := nonEmpty - 1;
    && |after| == |before|
    && after[nonEmpty..] == before[nonEmpty..]
    && if sum == childN then after == before
       else if body == 0 then after[0] == childN
       else if sum < childN then Grown(before, after, body, childN - sum)
       else exists k: nat, cut :: Drained(before, after, body, k, cut) && WhaleSettled(before, after, body, childN)
  }

  /** The whale keeps its count unless the whole body is already at one. */
  ghost predicate WhaleSettled(before: seq<int>, after: seq<int>, body: nat, childN: int)
    requires body < |before| && |after| == |before|
  {
    || (after[body] == before[body] && Sum(after[..body + 1]) == childN)
    || (&& (forall i :: 0 <= i < body ==> after[i] == 1)
        && body + before[body] > childN
        && after[body] == Max(1, childN - body))
  }

  lemma MulAtLeast(e: int, n: int)
    requires e >= 1 && n > 0
    ensures e * n >= n
  {
    assert e * n == (e - 1) * n + n;
    assert (e - 1) * n >= 0;
  }

  lemma QuotientAndRemainder(d: nat, n: nat, q: nat, r: nat)
    requires n > 0 && d == q * n + r && r < n
    ensures d / n == q && d % n == r
  {
    var q', r' := d / n, d % n;
    assert d == q' * n + r' && 0 <= r' < n;
    assert (q - q') * n == q * n - q' * n;
    assert (q' - q) * n == q' * n - q * n;
    if q > q' {
      MulAtLeast(q - q', n);
    } else if q < q' {
      MulAtLeast(q' - q, n);
    }
  }

  /** The two loops that hand out the missing children. */
  method GrowBody(counts: array<int>, body: nat, sum0: int, childN: int)
    requires 1 <= body <= counts.Length && sum0 < childN
    modifies counts
    ensures Grown(old(counts[..]), counts[..], body, childN - sum0)
  {
    ghost var before := counts[..];
    ghost var rounds: nat := 0;
    var sum := sum0;
    ghost var last: nat := 0;
    while sum < childN
      invariant sum0 <= sum <= childN
      invariant rounds == 0 <==> sum == sum0
      invariant rounds > 0 ==> 0 <= last <= body && sum == sum0 + (rounds - 1) * body + last
      invariant rounds > 0 && sum < childN ==> last == body
      invariant forall j :: 0 <= j < body ==>
                  counts[j] == before[j] + (if rounds == 0 then 0 else rounds - 1 + (if j < last then 1 else 0))
      invariant counts[body..] == before[body..]
    {
      ghost var start := sum;
      assert start == sum0 + rounds * body;
      var i := 0;
      while i < body && sum < childN
        invariant 0 <= i <= body && sum == start + i <= childN
        invariant forall j :: 0 <= j < body ==> counts[j] == before[j] + rounds + (if j < i then 1 else 0)
        invariant counts[body..] == before[body..]
      {
        counts[i] := counts[i] + 1;
        sum := sum + 1;
        i := i + 1;
      }
      last := i;
      rounds := rounds + 1;
    }
    var d := childN - sum0;
    if last < body {
      QuotientAndRemainder(d, body, rounds - 1, last);
    } else {
      assert d == rounds * body;
      QuotientAndRemainder(d, body, rounds, 0);
    }
  }

  /** The two loops that take children back; they stop early once the body is all ones. */
  method DrainBody(counts: array<int>, body: nat, sum0: int, childN: int)
    returns (sum: int, ghost k: nat, ghost cut: int)
    requires 1 <= body < counts.Length && sum0 > childN
    requires forall i :: 0 <= i < body ==> counts[i] >= 1
    requires sum0 == Sum(counts[..body + 1])
    modifies counts
    ensures Drained(old(counts[..]), counts[..], body, k, cut)
    ensures counts[body..] == old(counts[body..])
    ensures sum == Sum(counts[..body + 1]) >= childN
    ensures sum > childN ==> forall i :: 0 <= i < body ==> counts[i] == 1
  {
    ghost var before := counts[..];
    sum := sum0;
    k, cut := 0, body;
    while sum > childN
      invariant sum == Sum(counts[..body + 1]) >= childN
      invariant 0 <= cut <= body && (sum > childN ==> cut == body)
      invariant forall j :: 0 <= j < body ==> counts[j] == Max(1, before[j] - k - (if j >= cut then 1 else 0))
      invariant counts[body..] == before[body..]
      decreases sum - childN
    {
      var moved := false;
      ghost var start := sum;
      var i := body - 1;
      while i >= 0 && sum > childN
        invariant -1 <= i < body
        invariant sum == Sum(counts[..body + 1]) && childN <= sum <= start
        invariant moved ==> sum < start
        invariant !moved ==> sum == start && forall j :: i < j < body ==> counts[j] == 1
        invariant forall j :: 0 <= j < body ==> counts[j] == Max(1, before[j] - k - (if j > i then 1 else 0))
        invariant counts[body..] == before[body..]
      {
        if counts[i] > 1 {
          SumUpdate(counts[..body + 1], i, counts[i] - 1);
          ghost var was := counts[..body + 1];
          counts[i] := counts[i] - 1;
          assert counts[..body + 1] == was[i := counts[i]];
          sum := sum - 1;
          moved := true;
        }
        i := i - 1;
      }
      if !moved {
        k := k + 1;
        return;
      }
      if i < 0 {
        k := k + 1;
        cut := body;
      } else {
        cut := i + 1;
      }
    }
  }

  /** reconcile: brings the non-empty prefix to childN children, body first. */
  method Reconcile(counts: array<int>, nonEmpty: int, childN: int)
    requires 0 <= nonEmpty <= counts.Length
    requires forall i :: 0 <= i < nonEmpty ==> counts[i] >= 1
    modifies counts
    ensures nonEmpty == 0 ==> counts[..] == old(counts[..])
    ensures nonEmpty > 0 ==> Reconciled(old(counts[..]), counts[..], nonEmpty, childN)
  {
    ghost var before := counts[..];
    var sum := SumCounts(counts, nonEmpty);
    assert before[..nonEmpty] == counts[..nonEmpty];
    if sum == childN || nonEmpty == 0 {
      return;
    }
    var body := nonEmpty - 1;
    if body == 0 {
      counts[0] := childN;
      return;
    }
    if sum < childN {
      GrowBody(counts, body, sum, childN);
      assert counts[..][nonEmpty..] == counts[..][body..][1..];
      return;
    }
    ghost var k, cut;
    sum, k, cut := DrainBody(counts, body, sum, childN);
    assert counts[body] == counts[body..][0] == before[body..][0] == before[body];
    assert before[body..][1..] == before[nonEmpty..];
    assert counts[..][nonEmpty..] == counts[body..][1..];
    SettleWhale(counts, body, sum, childN, before, k, cut);
  }

  method SumCounts(counts: array<int>, nonEmpty: int) returns (sum: int)
    requires 0 <= nonEmpty <= counts.Length
    ensures sum == Sum(counts[..nonEmpty])
  {
    sum := 0;
    for i := 0 to nonEmpty
      invariant sum == Sum(counts[..i])
    {
      SumSnoc(counts[..], i);
      assert counts[..][..i + 1] == counts[..i + 1] && counts[..][..i] == counts[..i];
      sum := sum + counts[i];
    }
  }

  /** The whale gives back what the body could not. */
  method SettleWhale(counts: array<int>, body: nat, sum: int, childN: int, ghost before: seq<int>, ghost k: nat,
                     ghost cut: int)
    requires body < counts.Length == |before| && Drained(before, counts[..], body, k, cut)
    requires counts[body] == before[body] && sum == Sum(counts[..body + 1]) >= childN
    requires sum > childN ==> forall i :: 0 <= i < body ==> counts[i] == 1
    modifies counts
    ensures Drained(before, counts[..], body, k, cut) && WhaleSettled(before, counts[..], body, childN)
    ensures counts[body + 1..] == old(counts[body + 1..])
  {
    if sum > childN {
      SumSnoc(counts[..], body);
      assert counts[..][..body] == counts[..body] && counts[..][..body + 1] == counts[..body + 1];
      SumOfOnes(counts[..body]);
      counts[body] := counts[body] - (sum - childN);
      if counts[body] < 1 {
        counts[body] := 1;
      }
    } else {
      assert counts[..][..body + 1] == counts[..body + 1];
    }
  }

  // ----- what reconcile achieves -----

  lemma {:induction false} GrownSum(before: seq<int>, after: seq<int>, body: nat, d: nat, n: nat)
    requires 1 <= body <= |before| && Grown(before, after, body, d) && n <= body
    ensures Sum(after[..n]) == Sum(before[..n]) + n * (d / body) + (if n <= d % body then n else d % body)
  {
    if n > 0 {
      GrownSum(before, after, body, d, n - 1);
      SumSnoc(before, n - 1);
      SumSnoc(after, n - 1);
      assert n * (d / body) == (n - 1) * (d / body) + d / body;
    }
  }

  lemma GrownTotal(before: seq<int>, after: seq<int>, body: nat, d: nat)
    requires 1 <= body < |before| && Grown(before, after, body, d)
    requires forall i :: 0 <= i < body ==> before[i] >= 1
    ensures Sum(after[..body + 1]) == Sum(before[..body + 1]) + d
    ensures forall i :: 0 <= i < body ==> after[i] >= 1
    ensures after[body] == before[body]
  {
    GrownSum(before, after, body, d, body);
    SumSnoc(after, body);
    SumSnoc(before, body);
    assert after[body] == after[body..][0] == before[body..][0];
    assert d / body >= 0;
  }

  /** reconcile reaches the total exactly when there are no more non-empty parents
      than children; otherwise every one of them keeps a single child. */
  lemma ReconciledTotal(before: seq<int>, after: seq<int>, nonEmpty: int, childN: int)
    requires 1 <= nonEmpty <= |before| && childN >= 1
    requires forall i :: 0 <= i < nonEmpty ==> before[i] >= 1
    requires Reconciled(before, after, nonEmpty, childN)
    ensures Sum(after[..nonEmpty]) == Max(childN, nonEmpty)
    ensures forall i :: 0 <= i < nonEmpty ==> after[i] >= 1
    ensures forall i :: nonEmpty <= i < |after| ==> after[i] == before[i]
  {
    var sum, body := Sum(before[..nonEmpty]), nonEmpty - 1;
    forall i | nonEmpty <= i < |after|
      ensures after[i] == before[i]
    {
      assert after[nonEmpty..][i - nonEmpty] == before[nonEmpty..][i - nonEmpty];
    }
    SumSnoc(after, body);
    SumSnoc(before, body);
    if sum == childN {
    } else if body == 0 {
      assert after[..1] == [childN];
    } else if sum < childN {
      GrownTotal(before, after, body, childN - sum);
    } else {
      var k: nat, cut :| Drained(before, after, body, k, cut) && WhaleSettled(before, after, body, childN);
      if !(after[body] == before[body] && Sum(after[..body + 1]) == childN) {
        SumOfOnes(after[..body]);
      }
    }
    SumAtLeastLength(after[..nonEmpty]);
  }

  /** Of two drainings of the same body, one takes at least as much everywhere. */
  lemma DrainedComparable(before: seq<int>, a: seq<int>, b: seq<int>, body: nat, k: nat, cut: int, k': nat, cut': int)
    requires body <= |before|
    requires Drained(before, a, body, k, cut) && Drained(before, b, body, k', cut')
    requires k < k' || (k == k' && cut >= cut')
    ensures forall i :: 0 <= i < body ==> b[i] <= a[i]
  {
  }

  /** The relation reconcile is proved against determines the result. */
  lemma ReconciledUnique(before: seq<int>, a: seq<int>, b: seq<int>, nonEmpty: int, childN: int)
    requires 1 <= nonEmpty <= |before| && childN >= 1
    requires forall i :: 0 <= i < nonEmpty ==> before[i] >= 1
    requires Reconciled(before, a, nonEmpty, childN) && Reconciled(before, b, nonEmpty, childN)
    ensures a == b
  {
    var sum, body := Sum(before[..nonEmpty]), nonEmpty - 1;
    ReconciledTotal(before, a, nonEmpty, childN);
    ReconciledTotal(before, b, nonEmpty, childN);
    if sum < childN && body > 0 {
      GrownEqual(before, a, b, body, childN - sum);
    } else if sum > childN && body > 0 {
      DrainedUnique(before, a, b, body, childN);
      assert a == a[..nonEmpty] + a[nonEmpty..] && b == b[..nonEmpty] + b[nonEmpty..];
    }
  }

  lemma GrownEqual(before: seq<int>, a: seq<int>, b: seq<int>, body: nat, d: nat)
    requires 1 <= body <= |before| && Grown(before, a, body, d) && Grown(before, b, body, d)
    ensures a == b
  {
    forall i | body <= i < |before|
      ensures a[i] == b[i]
    {
      assert a[i] == a[body..][i - body] == b[body..][i - body] == b[i];
    }
  }

  lemma DrainedUnique(before: seq<int>, a: seq<int>, b: seq<int>, body: nat, childN: int)
    requires body < |before| == |a| == |b| && childN >= 1
    requires exists k: nat, cut :: Drained(before, a, body, k, cut) && WhaleSettled(before, a, body, childN)
    requires exists k: nat, cut :: Drained(before, b, body, k, cut) && WhaleSettled(before, b, body, childN)
    requires Sum(a[..body + 1]) == Sum(b[..body + 1])
    ensures a[..body + 1] == b[..body + 1]
  {
    var k: nat, cut :| Drained(before, a, body, k, cut) && WhaleSettled(before, a, body, childN);
    var k': nat, cut' :| Drained(before, b, body, k', cut') && WhaleSettled(before, b, body, childN);
    if k < k' || (k == k' && cut >= cut') {
      DrainedComparable(before, a, b, body, k, cut, k', cut');
      DrainedEqual(before, a, b, body, childN);
    } else {
      DrainedComparable(before, b, a, body, k', cut', k, cut);
      DrainedEqual(before, b, a, body, childN);
    }
  }

  lemma DrainedEqual(before: seq<int>, a: seq<int>, b: seq<int>, body: nat, childN: int)
    requires body < |before| == |a| == |b| && childN >= 1
    requires forall i :: 0 <= i < body ==> 1 <= b[i] <= a[i]
    requires WhaleSettled(before, a, body, childN) && WhaleSettled(before, b, body, childN)
    requires Sum(a[..body + 1]) == Sum(b[..body + 1])
    ensures a[..body + 1] == b[..body + 1]
  {
    SumSnoc(a, body);
    SumSnoc(b, body);
    SumMonotone(b[..body], a[..body]);
    if forall i :: 0 <= i < body ==> b[i] == 1 {
      SumOfOnes(b[..body]);
    }
    assert a[body] == b[body];
    assert a[..body + 1] == a[..body] + [a[body]];
    assert b[..body + 1] == b[..body] + [b[body]];
  }

  /** An ascending body stays ascending to within one child. */
  lemma ReconciledNearlyAscending(before: seq<int>, after: seq<int>, nonEmpty: int, childN: int, i: int, j: int)
    requires 1 <= nonEmpty <= |before|
    requires Reconciled(before, after, nonEmpty, childN)
    requires 0 <= i < j < nonEmpty - 1 && before[i] <= before[j]
    ensures after[i] <= after[j] + 1
  {
    var sum, body := Sum(before[..nonEmpty]), nonEmpty - 1;
    if sum > childN {
      var k: nat, cut :| Drained(before, after, body, k, cut) && WhaleSettled(before, after, body, childN);
    }
  }

  // ----- targetCounts -----

  /** The children-per-parent array for the given facts and row counts. */
  ghost predicate TargetCountsOf(counts: seq<int>, pow: Pow, fo: Fanout, parentN: int, childN: int, declaredChild: int)
    requires parentN >= 1 && childN >= 1
  {
    var f := FanoutFacts(fo, childN, parentN);
    var n := NonEmptyParents(f, parentN, childN);
    Reconciled(Shape(pow, f, parentN, n, Whale(f, childN, declaredChild)), counts, n, childN)
  }

  method TargetCounts(pow: Pow, fo: Fanout, parentN: int, childN: int, declaredChild: int) returns (counts: array<int>)
    requires parentN >= 1 && childN >= 1
    ensures fresh(counts)
    ensures TargetCountsOf(counts[..], pow, fo, parentN, childN, declaredChild)
  {
    counts := new int[parentN](_ => 0);
    var f := FanoutFacts(fo, childN, parentN);
    var nonEmpty := NonEmptyParents(f, parentN, childN);
    var whale := Whale(f, childN, declaredChild);
    var bodyEnd := BodyEnd(nonEmpty);
    for i := 0 to nonEmpty
      invariant forall j :: 0 <= j < i ==> counts[j] == ShapeAt(pow, f, nonEmpty, whale, j)
      invariant forall j :: i <= j < parentN ==> counts[j] == 0
    {
      if i == nonEmpty - 1 {
        counts[i] := whale;
      } else if i < bodyEnd {
        counts[i] := CountOf(BodyQuantile(pow, Position(i, bodyEnd), f.p50, f.p95));
      } else {
        counts[i] := CountOf(f.p95);
      }
    }
    assert counts[..] == Shape(pow, f, parentN, nonEmpty, whale);
    Reconcile(counts, nonEmpty, childN);
  }

  /** How many parents have children: every array targetCounts builds is positive
      up to here and zero beyond. */
  function Populated(fo: Fanout, parentN: int, childN: int): (n: int)
    requires parentN >= 1
    ensures 1 <= n <= parentN
  {
    NonEmptyParents(FanoutFacts(fo, childN, parentN), parentN, childN)
  }

  /** targetCounts: positive on the populated parents, zero on the rest, and summing
      to exactly childN if and only if there are no more populated parents than
      children. */
  lemma TargetCountsTotal(counts: seq<int>, pow: Pow, fo: Fanout, parentN: int, childN: int, declaredChild: int)
    requires parentN >= 1 && childN >= 1
    requires TargetCountsOf(counts, pow, fo, parentN, childN, declaredChild)
    ensures |counts| == parentN
    ensures forall i :: 0 <= i < Populated(fo, parentN, childN) ==> counts[i] >= 1
    ensures forall i :: Populated(fo, parentN, childN) <= i < parentN ==> counts[i] == 0
    ensures Sum(counts[..Populated(fo, parentN, childN)]) == Max(childN, Populated(fo, parentN, childN))
    ensures Sum(counts) == childN <==> Populated(fo, parentN, childN) <= childN
  {
    var f := FanoutFacts(fo, childN, parentN);
    var n := NonEmptyParents(f, parentN, childN);
    var shape := Shape(pow, f, parentN, n, Whale(f, childN, declaredChild));
    ReconciledTotal(shape, counts, n, childN);
    SumOfTail(counts, n);
  }

  lemma SumOfTail(counts: seq<int>, n: nat)
    requires n <= |counts| && forall i :: n <= i < |counts| ==> counts[i] == 0
    ensures Sum(counts) == Sum(counts[..n])
  {
    assert counts == counts[..n] + counts[n..];
    SumAppend(counts[..n], counts[n..]);
    SumOfZeros(counts[n..]);
  }

  lemma {:induction false} SumOfZeros(s: seq<int>)
    requires forall i :: 0 <= i < |s| ==> s[i] == 0
    ensures Sum(s) == 0
  {
    if s != [] {
      SumOfZeros(s[1..]);
    }
  }

  lemma RatioAtMost(c: real, m: real)
    requires c >= 0.0 && m >= 1.0
    ensures c / m <= c
  {
    var r := c / m;
    assert r * m == c;
    if r > c {
      ProductMonotone(r, 1.0, m);
    }
  }

  /** A usable mean of at least one child per populated parent is enough. */
  lemma MeanOfOneReachesTotal(fo: Fanout, parentN: int, childN: int)
    requires parentN >= 1 && childN >= 1
    requires FanoutFacts(fo, childN, parentN).mean >= 1.0
    ensures Populated(fo, parentN, childN) <= childN
  {
    var mean := FanoutFacts(fo, childN, parentN).mean;
    var ratio := childN as real / mean;
    RatioAtMost(childN as real, mean);
    RoundMonotone(ratio, childN as real);
    assert Round(childN as real) == childN;
    ToI64Monotone(Round(ratio) as real, childN as real);
  }

  // ----- the shape is ascending below the whale -----

  lemma RatioMonotone(a: real, b: real, d: real)
    requires a <= b && d > 0.0
    ensures a / d <= b / d
  {
  }

  lemma LerpBetween(a: real, b: real, t: real)
    requires 0.0 <= t <= 1.0
    ensures a <= b ==> a <= Lerp(a, b, t) <= b
    ensures b <= a ==> b <= Lerp(a, b, t) <= a
  {
    var up, down := b - a, a - b;
    if a <= b {
      ProductMonotone(up, 0.0, t);
      ProductMonotone(up, t, 1.0);
      assert Lerp(a, b, t) == a + up * t;
    } else {
      ProductMonotone(down, 0.0, t);
      ProductMonotone(down, t, 1.0);
      assert Lerp(a, b, t) == a - down * t;
    }
  }

  lemma LerpMonotone(a: real, b: real, s: real, t: real)
    requires a <= b && s <= t
    ensures Lerp(a, b, s) <= Lerp(a, b, t)
  {
    ProductMonotone(b - a, s, t);
  }

  lemma GeomLerpBetween(pow: Pow, a: real, b: real, s: real, t: real)
    requires GrowsWithExponent(pow) && 0.0 < a <= b && 0.0 <= s <= t <= 1.0
    ensures a <= GeomLerp(pow, a, b, s) <= GeomLerp(pow, a, b, t) <= b
  {
    var base := b / a;
    RatioMonotone(a, b, a);
    assert a * base == b;
    var x, y := pow(base, s), pow(base, t);
    assert 1.0 <= x <= y <= base;
    ProductMonotone(a, 1.0, x);
    ProductMonotone(a, x, y);
    ProductMonotone(a, y, base);
    assert GeomLerp(pow, a, b, s) == a * x && GeomLerp(pow, a, b, t) == a * y;
  }

  lemma CountMonotone(x: real, y: real)
    requires x <= y || x <= 1.0
    ensures CountOf(x) <= CountOf(y)
  {
    if x <= y {
      RoundMonotone(x, y);
      ToI64Monotone(Round(x) as real, Round(y) as real);
    } else {
      RoundMonotone(x, 1.0);
      ToI64Monotone(Round(x) as real, 1.0);
    }
  }

  lemma LowerHalf(pow: Pow, q: real, p50: real, p95: real)
    requires 0.0 < p50 <= p95 && 0.0 <= q <= 0.5
    ensures BodyQuantile(pow, q, p50, p95) <= MaxReal(1.0, p50)
    ensures 0.0 < BodyQuantile(pow, q, p50, p95)
  {
    LerpBetween(MaxReal(1.0, 2.0 * p50 - p95), p50, q / 0.5);
  }

  /** The quantile curve rises, except where it is too low to matter: a value of at
      most one counts as one child in any case. */
  lemma BodyQuantileMonotone(pow: Pow, q: real, r: real, p50: real, p95: real)
    requires GrowsWithExponent(pow) && 0.0 < p50 <= p95 && 0.0 <= q <= r <= 1.0
    ensures BodyQuantile(pow, q, p50, p95) <= BodyQuantile(pow, r, p50, p95) || BodyQuantile(pow, q, p50, p95) <= 1.0
    ensures BodyQuantile(pow, r, p50, p95) <= p95 || BodyQuantile(pow, r, p50, p95) <= 1.0
  {
    var s, t := (q - 0.5) / 0.5, (r - 0.5) / 0.5;
    if r <= 0.5 {
      LowerHalf(pow, q, p50, p95);
      LowerHalf(pow, r, p50, p95);
      var floor := MaxReal(1.0, 2.0 * p50 - p95);
      if floor <= p50 {
        LerpMonotone(floor, p50, q / 0.5, r / 0.5);
      }
    } else if q <= 0.5 {
      LowerHalf(pow, q, p50, p95);
      GeomLerpBetween(pow, p50, p95, t, t);
    } else {
      GeomLerpBetween(pow, p50, p95, s, t);
    }
  }

  lemma BodyCountAscending(pow: Pow, q: real, r: real, p50: real, p95: real)
    requires GrowsWithExponent(pow) && 0.0 < p50 <= p95 && 0.0 <= q <= r <= 1.0
    ensures CountOf(BodyQuantile(pow, q, p50, p95)) <= CountOf(BodyQuantile(pow, r, p50, p95)) <= CountOf(p95)
  {
    BodyQuantileMonotone(pow, q, r, p50, p95);
    CountMonotone(BodyQuantile(pow, q, p50, p95), BodyQuantile(pow, r, p50, p95));
    CountMonotone(BodyQuantile(pow, r, p50, p95), p95);
  }

  lemma PositionAscending(i: int, j: int, bodyEnd: int)
    requires 0 <= i < bodyEnd && i < j
    ensures 0.0 <= Position(i, bodyEnd) <= 1.0
    ensures Position(i, bodyEnd) <= Position(j, bodyEnd)
    ensures j < bodyEnd ==> Position(j, bodyEnd) <= 1.0
  {
    var e, x, y := bodyEnd as real, i as real + 0.5, j as real + 0.5;
    RatioMonotone(0.0, x, e);
    RatioMonotone(x, e, e);
    RatioMonotone(x, y, e);
    if j < bodyEnd {
      RatioMonotone(y, e, e);
    }
  }

  lemma ShapeAscending(pow: Pow, f: Fanout, nonEmpty: int, whale: int, i: int, j: int)
    requires GrowsWithExponent(pow) && 0.0 < f.p50 <= f.p95
    requires 0 <= i < j < nonEmpty - 1
    ensures ShapeAt(pow, f, nonEmpty, whale, i) <= ShapeAt(pow, f, nonEmpty, whale, j)
  {
    var bodyEnd := BodyEnd(nonEmpty);
    if i < bodyEnd {
      var q, r := Position(i, bodyEnd), Position(j, bodyEnd);
      PositionAscending(i, j, bodyEnd);
      BodyCountAscending(pow, q, if j < bodyEnd then r else q, f.p50, f.p95);
    }
  }

  /** Below the whale, a parent further up the array has at least as many children,
      to within the single child reconciliation may move. */
  lemma TargetCountsNearlyAscending(counts: seq<int>, pow: Pow, fo: Fanout, parentN: int, childN: int,
                                    declaredChild: int,
                                    i: int, j: int)
    requires parentN >= 1 && childN >= 1 && GrowsWithExponent(pow)
    requires TargetCountsOf(counts, pow, fo, parentN, childN, declaredChild)
    requires 0 <= i < j < Populated(fo, parentN, childN) - 1
    ensures |counts| == parentN && counts[i] <= counts[j] + 1
  {
    var f := FanoutFacts(fo, childN, parentN);
    var n := NonEmptyParents(f, parentN, childN);
    var whale := Whale(f, childN, declaredChild);
    var shape := Shape(pow, f, parentN, n, whale);
    ShapeAscending(pow, f, n, whale, i, j);
    assert shape[i] <= shape[j];
    ReconciledNearlyAscending(shape, counts, n, childN, i, j);
  }

  // ----- how far the counts move from the facts -----

  /** The residual is spread evenly over the body: a body parent gains its share of what is
      missing, to within one child, and gives back as much as any other to within one child,
      unless that other is left with one. */
  lemma EvenlySpread(before: seq<int>, after: seq<int>, nonEmpty: int, childN: int, i: int, j: int)
    requires 2 <= nonEmpty <= |before| && 0 <= i < nonEmpty - 1 && 0 <= j < nonEmpty - 1
    requires forall p :: 0 <= p < nonEmpty ==> before[p] >= 1
    requires Reconciled(before, after, nonEmpty, childN)
    ensures var missing := childN - Sum(before[..nonEmpty]);
            && (missing >= 0 ==> missing / (nonEmpty - 1) <= after[i] - before[i] <= missing / (nonEmpty - 1) + 1)
            && (missing < 0 ==>
                  0 <= before[i] - after[i] && (before[i] - after[i] <= before[j] - after[j] + 1 || after[j] == 1))
  {
    var sum, body := Sum(before[..nonEmpty]), nonEmpty - 1;
    if sum > childN {
      var k: nat, cut :| Drained(before, after, body, k, cut) && WhaleSettled(before, after, body, childN);
    }
  }

  /** The largest parent keeps the count the facts assert exactly when one child for every
      other populated parent leaves room for it, or it has only one. */
  lemma WhaleKeptIff(before: seq<int>, after: seq<int>, nonEmpty: int, childN: int)
    requires 2 <= nonEmpty <= |before| && childN >= 1
    requires forall p :: 0 <= p < nonEmpty ==> before[p] >= 1
    requires Reconciled(before, after, nonEmpty, childN)
    ensures after[nonEmpty - 1] == before[nonEmpty - 1]
            <==> nonEmpty - 1 + before[nonEmpty - 1] <= childN || before[nonEmpty - 1] == 1
  {
    var sum, body := Sum(before[..nonEmpty]), nonEmpty - 1;
    SumSnoc(before, body);
    SumSnoc(after, body);
    SumAtLeastLength(before[..body]);
    ReconciledTotal(before, after, nonEmpty, childN);
    SumAtLeastLength(after[..body]);
    if sum < childN {
      assert after[body] == after[body..][0] == before[body..][0];
    }
  }

  /** The parents between the 95th percentile and the largest. */
  ghost predicate BandKept(before: seq<int>, after: seq<int>, nonEmpty: int)
    requires 1 <= nonEmpty <= |before| == |after|
  {
    forall i :: BodyEnd(nonEmpty) <= i < nonEmpty - 1 ==> after[i] == before[i]
  }

  /** The comment in reconcile says the band near p95 is left alone; the loops take it for body.
      It is, exactly when nothing is missing, when no more is missing than there are parents
      below the band, or when too much was shaped and the band has one child each. */
  lemma BandKeptIff(counts: seq<int>, pow: Pow, fo: Fanout, parentN: int, childN: int, declaredChild: int)
    requires parentN >= 1 && childN >= 1 && TargetCountsOf(counts, pow, fo, parentN, childN, declaredChild)
    requires BodyEnd(Populated(fo, parentN, childN)) < Populated(fo, parentN, childN) - 1
    ensures var f, n := FanoutFacts(fo, childN, parentN), Populated(fo, parentN, childN);
            var shape := Shape(pow, f, parentN, n, Whale(f, childN, declaredChild));
            var missing := childN - Sum(shape[..n]);
            && |counts| == parentN
            && (BandKept(shape, counts, n) <==> 0 <= missing <= BodyEnd(n) || (missing < 0 && CountOf(f.p95) == 1))
  {
    var f, n := FanoutFacts(fo, childN, parentN), Populated(fo, parentN, childN);
    var shape := Shape(pow, f, parentN, n, Whale(f, childN, declaredChild));
    var missing := childN - Sum(shape[..n]);
    if missing > 0 {
      GrownBand(shape, counts, n, missing);
    } else if missing < 0 {
      DrainedBand(shape, counts, n, childN, CountOf(f.p95));
    }
  }

  lemma GrownBand(before: seq<int>, after: seq<int>, nonEmpty: int, d: nat)
    requires 2 <= nonEmpty <= |before| && d > 0 && Grown(before, after, nonEmpty - 1, d)
    requires BodyEnd(nonEmpty) < nonEmpty - 1
    ensures BandKept(before, after, nonEmpty) <==> d <= BodyEnd(nonEmpty)
  {
    var body := nonEmpty - 1;
    if d <= BodyEnd(nonEmpty) {
      QuotientAndRemainder(d, body, 0, d);
    } else {
      var first := BodyEnd(nonEmpty);
      if d < body {
        QuotientAndRemainder(d, body, 0, d);
        assert after[first] == before[first] + 1;
      } else {
        assert d / body >= 1;
        assert after[first] > before[first];
      }
    }
  }

  lemma DrainedBand(before: seq<int>, after: seq<int>, nonEmpty: int, childN: int, count: int)
    requires 2 <= nonEmpty <= |before| && Reconciled(before, after, nonEmpty, childN)
             && Sum(before[..nonEmpty]) > childN
    requires BodyEnd(nonEmpty) < nonEmpty - 1 && count >= 1
    requires forall i :: 0 <= i < nonEmpty ==> before[i] >= 1
    requires forall i :: BodyEnd(nonEmpty) <= i < nonEmpty - 1 ==> before[i] == count
    ensures BandKept(before, after, nonEmpty) <==> count == 1
  {
    var body := nonEmpty - 1;
    var k: nat, cut :| Drained(before, after, body, k, cut) && WhaleSettled(before, after, body, childN);
    if count > 1 && after[body - 1] == before[body - 1] {
      assert k == 0 && cut == body;
      assert after[..body] == before[..body];
      SumSnoc(before, body);
      SumSnoc(after, body);
    }
  }

  // ----- orphanGroupCount -----

  /** g is the length of the shortest run of groups holding at least want rows, or
      all the populated groups when none of the runs does. */
  ghost predicate ShortestRun(counts: seq<int>, nonEmpty: int, want: int, g: int)
    requires 0 <= nonEmpty <= |counts|
  {
    && 0 <= g <= nonEmpty
    && (g > 0 ==> Sum(counts[..g - 1]) < want)
    && (g < nonEmpty ==> Sum(counts[..g]) >= want)
  }

  /** Rows the recorded orphan fraction asks for; no more than zero asks for none. */
  function OrphanRowsWanted(of: Option<real>, childN: int): (want: int)
    ensures want >= 0
  {
    if of.None? || of.value <= 0.0 || childN <= 0 then 0
    else Max(0, ToI64(Round(of.value * childN as real) as real))
  }

  /** The groups that will reference a parent that does not exist. */
  ghost predicate OrphanGroups(counts: seq<int>, nonEmpty: int, want: int, groups: int)
    requires 0 <= nonEmpty <= |counts|
  {
    if want == 0 then groups == 0
    else
      exists g :: ShortestRun(counts, nonEmpty, want, g)
                  && groups == (if g >= |counts| then Max(0, |counts| - 1) else g)
  }

  method OrphanGroupCount(counts: array<int>, childN: int, of: Option<real>, ghost nonEmpty: int) returns (groups: int)
    requires 0 <= nonEmpty <= counts.Length
    requires forall i :: 0 <= i < nonEmpty ==> counts[i] >= 1
    requires forall i :: nonEmpty <= i < counts.Length ==> counts[i] == 0
    ensures OrphanGroups(counts[..], nonEmpty, OrphanRowsWanted(of, childN), groups)
  {
    if of.None? || of.value <= 0.0 || childN <= 0 {
      return 0;
    }
    var want := ToI64(Round(of.value * childN as real) as real);
    if want <= 0 {
      return 0;
    }
    assert want == OrphanRowsWanted(of, childN);
    groups := RunLength(counts, want, nonEmpty);
    if groups >= counts.Length {
      groups := counts.Length - 1;
    }
    if groups < 0 {
      groups := 0;
    }
  }

  /** The loop of orphanGroupCount: groups taken from the bottom until they hold want rows. */
  method RunLength(counts: array<int>, want: int, ghost nonEmpty: int) returns (groups: int)
    requires 0 <= nonEmpty <= counts.Length && want > 0
    requires forall i :: 0 <= i < nonEmpty ==> counts[i] >= 1
    requires forall i :: nonEmpty <= i < counts.Length ==> counts[i] == 0
    ensures ShortestRun(counts[..], nonEmpty, want, groups)
  {
    ghost var c := counts[..];
    var rows := 0;
    groups := 0;
    var i := 0;
    while i < counts.Length && rows < want
      invariant 0 <= i <= counts.Length
      invariant groups == if i <= nonEmpty then i else nonEmpty
      invariant rows == Sum(c[..groups])
      invariant groups > 0 ==> Sum(c[..groups - 1]) < want
      decreases counts.Length - i
    {
      if counts[i] > 0 {
        SumSnoc(c, i);
        rows := rows + counts[i];
        groups := groups + 1;
      }
      i := i + 1;
    }
  }

  // ----- assignForeignKeys -----

  /** The parent ordinal group p is handed: past every real parent for an orphan group. */
  function GroupOrdinal(p: int, orphans: int, parentN: int): int {
    if p < orphans then parentN + p else p
  }

  /** The first n groups written out child by child. */
  function Layout(counts: seq<int>, orphans: int, parentN: int, n: nat): (rows: seq<int>)
    requires n <= |counts| && forall i :: 0 <= i < |counts| ==> counts[i] >= 0
    ensures |rows| == Sum(counts[..n])
  {
    if n == 0 then []
    else
      SumSnoc(counts, n - 1);
      Layout(counts, orphans, parentN, n - 1) + seq(counts[n - 1], _ => GroupOrdinal(n - 1, orphans, parentN))
  }

  lemma {:induction false} LayoutPrefix(counts: seq<int>, orphans: int, parentN: int, m: nat, n: nat)
    requires m <= n <= |counts| && forall i :: 0 <= i < |counts| ==> counts[i] >= 0
    ensures Layout(counts, orphans, parentN, m) <= Layout(counts, orphans, parentN, n)
    decreases n - m
  {
    if m < n {
      LayoutPrefix(counts, orphans, parentN, m, n - 1);
    }
  }

  datatype Reference = Reference(fanout: Option<Fanout>, orphanFraction: Option<real>)

  /** The rows assignForeignKeys lays out when the reference carries a fan-out fact. */
  ghost predicate FanoutAssignment(out: seq<int>, counts: seq<int>, orphans: int, pow: Pow, fo: Fanout,
                                   of: Option<real>,
                                   childN: int, parentN: int, declaredChild: int)
    requires parentN >= 1 && childN >= 1
  {
    && |counts| == parentN
    && (forall i :: 0 <= i < parentN ==> counts[i] >= 0)
    && Sum(counts[..parentN]) >= childN
    && out == Layout(counts, orphans, parentN, parentN)[..childN]
    && TargetCountsOf(counts, pow, fo, parentN, childN, declaredChild)
    && OrphanGroups(counts, Populated(fo, parentN, childN), OrphanRowsWanted(of, childN), orphans)
  }

  lemma WholePrefix(counts: seq<int>)
    ensures counts[..|counts|] == counts
  {
  }

  method AssignForeignKeys(pow: Pow, ref: Reference, childN: nat, parentN: int, declaredChild: int)
    returns (out: array<int>, ghost counts: seq<int>, ghost orphans: int)
    ensures fresh(out) && out.Length == childN
    ensures parentN <= 0 ==> forall i :: 0 <= i < childN ==> out[i] == 0
    ensures parentN > 0 && ref.fanout.None? ==> forall i :: 0 <= i < childN ==> out[i] == i % parentN
    ensures parentN > 0 && ref.fanout.Some? && childN > 0 ==>
              FanoutAssignment(out[..], counts, orphans, pow, ref.fanout.value, ref.orphanFraction, childN, parentN,
                               declaredChild)
  {
    out := new int[childN](_ => 0);
    counts, orphans := [], 0;
    if childN <= 0 || parentN <= 0 {
      return;
    }
    if ref.fanout.None? {
      for i := 0 to childN
        invariant forall j :: 0 <= j < i ==> out[j] == j % parentN
      {
        out[i] := i % parentN;
      }
      return;
    }
    var groups := TargetCounts(pow, ref.fanout.value, parentN, childN, declaredChild);
    counts := groups[..];
    TargetCountsTotal(counts, pow, ref.fanout.value, parentN, childN, declaredChild);
    SumOfTail(counts, Populated(ref.fanout.value, parentN, childN));
    WholePrefix(counts);
    var orphanGroups := OrphanGroupCount(groups, childN, ref.orphanFraction,
                                         Populated(ref.fanout.value, parentN, childN));
    orphans := orphanGroups;
    LayGroups(out, groups, orphanGroups, parentN);
  }

  /** The double loop that fills the child slots group by group. The loop that would
      wrap leftover children onto the busiest parent is dead: the groups hold at least
      as many children as there are slots. */
  method LayGroups(out: array<int>, counts: array<int>, orphans: int, parentN: int)
    requires out != counts && counts.Length == parentN
    requires forall i :: 0 <= i < counts.Length ==> counts[i] >= 0
    requires Sum(counts[..]) >= out.Length
    modifies out
    ensures counts[..] == old(counts[..])
    ensures counts[..][..parentN] == counts[..]
    ensures out[..] == Layout(counts[..], orphans, parentN, parentN)[..out.Length]
  {
    ghost var c := counts[..];
    var childN := out.Length;
    var idx := 0;
    var p := 0;
    while p < counts.Length && idx < childN
      invariant 0 <= p <= counts.Length && 0 <= idx <= childN
      invariant counts[..] == c
      invariant idx == if |Layout(c, orphans, parentN, p)| < childN then |Layout(c, orphans, parentN, p)| else childN
      invariant out[..idx] == Layout(c, orphans, parentN, p)[..idx]
    {
      var ordinal := p;
      if p < orphans {
        ordinal := parentN + p;
      }
      ghost var laid := Layout(c, orphans, parentN, p);
      ghost var next := Layout(c, orphans, parentN, p + 1);
      assert next == laid + seq(c[p], _ => GroupOrdinal(p, orphans, parentN));
      idx := FillSlots(out, idx, counts[p], ordinal);
      assert out[..idx] == next[..idx];
      p := p + 1;
    }
    WholePrefix(c);
    LayoutPrefix(c, orphans, parentN, p, parentN);
    assert idx == childN;
  }

  /** The inner loop: one ordinal for as many slots as the group has children. */
  method FillSlots(out: array<int>, start: nat, count: nat, ordinal: int) returns (idx: nat)
    requires start <= out.Length
    modifies out
    ensures idx == if start + count < out.Length then start + count else out.Length
    ensures out[..idx] == old(out[..start]) + seq(idx - start, _ => ordinal)
  {
    idx := start;
    var k := 0;
    while k < count && idx < out.Length
      invariant 0 <= k <= count && idx == start + k <= out.Length
      invariant out[..idx] == old(out[..start]) + seq(k, _ => ordinal)
    {
      out[idx] := ordinal;
      idx := idx + 1;
      k := k + 1;
    }
  }

  // ----- what the assignment achieves -----

  lemma {:induction false} RepeatCount(n: nat, x: int, y: int)
    ensures multiset(seq(n, _ => x))[y] == if x == y then n else 0
  {
    var s := seq(n, _ => x);
    if n > 0 {
      var t := seq(n - 1, _ => x);
      assert s == t + [x];
      RepeatCount(n - 1, x, y);
    }
  }

  lemma {:induction false} LayoutCounts(counts: seq<int>, orphans: int, parentN: int, n: nat, x: int)
    requires n <= |counts| <= parentN && forall i :: 0 <= i < |counts| ==> counts[i] >= 0
    requires 0 <= orphans
    ensures forall p :: 0 <= p < n && GroupOrdinal(p, orphans, parentN) == x ==>
              multiset(Layout(counts, orphans, parentN, n))[x] == counts[p]
    ensures (forall p :: 0 <= p < n ==> GroupOrdinal(p, orphans, parentN) != x) ==>
              multiset(Layout(counts, orphans, parentN, n))[x] == 0
  {
    if n > 0 {
      LayoutCounts(counts, orphans, parentN, n - 1, x);
      RepeatCount(counts[n - 1], GroupOrdinal(n - 1, orphans, parentN), x);
    }
  }

  /** Rows of the first groups come first: which rows an orphan group owns. */
  lemma {:induction false} LayoutOrphanRows(counts: seq<int>, orphans: int, parentN: int, n: nat)
    requires n <= |counts| <= parentN && forall i :: 0 <= i < |counts| ==> counts[i] >= 0
    requires 0 <= orphans <= |counts|
    ensures forall i :: 0 <= i < |Layout(counts, orphans, parentN, n)| ==>
              var row := Layout(counts, orphans, parentN, n)[i];
              && (row >= parentN <==> i < Sum(counts[..orphans]))
              && (row < parentN ==> 0 <= row) && row < parentN + orphans
  {
    if n > 0 {
      LayoutOrphanRows(counts, orphans, parentN, n - 1);
      if n <= orphans {
        PrefixSumMonotone(counts, n, orphans);
      } else {
        PrefixSumMonotone(counts, orphans, n - 1);
      }
    }
  }

  lemma OrphanGroupsBounded(counts: seq<int>, nonEmpty: int, want: int, orphans: int)
    requires 0 <= nonEmpty <= |counts| && OrphanGroups(counts, nonEmpty, want, orphans)
    ensures 0 <= orphans <= nonEmpty
  {
  }

  /** How many groups get children: the populated ones, as far as the children reach. */
  function Served(fo: Fanout, parentN: int, childN: int): (m: int)
    requires parentN >= 1 && childN >= 1
    ensures 1 <= m <= Populated(fo, parentN, childN)
  {
    if Populated(fo, parentN, childN) <= childN then Populated(fo, parentN, childN) else childN
  }

  /** With more populated parents than children, each is left with a single one. */
  lemma {:induction false} AllOnes(s: seq<int>)
    requires Sum(s) == |s| && forall i :: 0 <= i < |s| ==> s[i] >= 1
    ensures forall i :: 0 <= i < |s| ==> s[i] == 1
  {
    if s != [] {
      SumAtLeastLength(s[1..]);
      AllOnes(s[1..]);
      assert forall i :: 1 <= i < |s| ==> s[i] == s[1..][i - 1];
    }
  }

  /** The groups that are served hold exactly the children there are. */
  lemma ServedTotal(counts: seq<int>, pow: Pow, fo: Fanout, parentN: int, childN: int, declaredChild: int)
    requires parentN >= 1 && childN >= 1 && TargetCountsOf(counts, pow, fo, parentN, childN, declaredChild)
    ensures |counts| == parentN && Sum(counts[..Served(fo, parentN, childN)]) == childN
    ensures forall i :: 0 <= i < parentN ==> counts[i] >= 0
    ensures forall i :: 0 <= i < Populated(fo, parentN, childN) ==> counts[i] >= 1
    ensures Populated(fo, parentN, childN) > childN ==>
              forall i :: 0 <= i < Populated(fo, parentN, childN) ==> counts[i] == 1
  {
    var n := Populated(fo, parentN, childN);
    TargetCountsTotal(counts, pow, fo, parentN, childN, declaredChild);
    if n > childN {
      AllOnes(counts[..n]);
      assert forall i :: 0 <= i < n ==> counts[i] == counts[..n][i];
      SumOfOnes(counts[..childN]);
    }
  }

  /** The rows are those of the groups that are served. */
  lemma ServedLayout(out: seq<int>, counts: seq<int>, orphans: int, pow: Pow, fo: Fanout, of: Option<real>,
                     childN: int, parentN: int, declaredChild: int)
    requires parentN >= 1 && childN >= 1
    requires FanoutAssignment(out, counts, orphans, pow, fo, of, childN, parentN, declaredChild)
    ensures |counts| == parentN && out == Layout(counts, orphans, parentN, Served(fo, parentN, childN))
  {
    var m := Served(fo, parentN, childN);
    ServedTotal(counts, pow, fo, parentN, childN, declaredChild);
    WholePrefix(counts);
    LayoutPrefix(counts, orphans, parentN, m, parentN);
    assert Layout(counts, orphans, parentN, parentN)[..childN] == Layout(counts, orphans, parentN, m);
  }

  /** The rows of group p: its counts[p], or none past the groups that are served. */
  function GroupRows(counts: seq<int>, fo: Fanout, parentN: int, childN: int, p: nat): int
    requires p < |counts| == parentN && childN >= 1
  {
    if p < Served(fo, parentN, childN) then counts[p] else 0
  }

  /** Every group p gets exactly its rows, under the ordinal no real parent has when p is
      an orphan group and under p otherwise, and no row carries any other ordinal. While
      the populated parents are no more than the children, its rows are counts[p]. */
  lemma AssignmentFollowsCounts(out: seq<int>, counts: seq<int>, orphans: int, pow: Pow, fo: Fanout, of: Option<real>,
                                childN: int, parentN: int, declaredChild: int)
    requires parentN >= 1 && childN >= 1
    requires FanoutAssignment(out, counts, orphans, pow, fo, of, childN, parentN, declaredChild)
    ensures |out| == childN && |counts| == parentN && 0 <= orphans <= parentN
    ensures forall p: nat :: p < parentN ==>
              multiset(out)[GroupOrdinal(p, orphans, parentN)] == GroupRows(counts, fo, parentN, childN, p)
    ensures Populated(fo, parentN, childN) <= childN ==>
              forall p: nat :: p < parentN ==> GroupRows(counts, fo, parentN, childN, p) == counts[p]
    ensures forall x :: x in out ==> exists p :: 0 <= p < parentN && x == GroupOrdinal(p, orphans, parentN)
  {
    var m := Served(fo, parentN, childN);
    TargetCountsTotal(counts, pow, fo, parentN, childN, declaredChild);
    OrphanGroupsBounded(counts, Populated(fo, parentN, childN), OrphanRowsWanted(of, childN), orphans);
    ServedLayout(out, counts, orphans, pow, fo, of, childN, parentN, declaredChild);
    forall p: nat | p < parentN
      ensures multiset(out)[GroupOrdinal(p, orphans, parentN)] == GroupRows(counts, fo, parentN, childN, p)
    {
      GroupLaid(counts, orphans, parentN, m, p);
    }
    OnlyGroupsLaid(counts, orphans, parentN, m);
  }

  lemma GroupLaid(counts: seq<int>, orphans: int, parentN: int, m: nat, p: nat)
    requires m <= |counts| == parentN && p < parentN && 0 <= orphans <= parentN
    requires forall i :: 0 <= i < parentN ==> counts[i] >= 0
    ensures multiset(Layout(counts, orphans, parentN, m))[GroupOrdinal(p, orphans, parentN)]
            == if p < m then counts[p] else 0
  {
    LayoutCounts(counts, orphans, parentN, m, GroupOrdinal(p, orphans, parentN));
  }

  lemma OnlyGroupsLaid(counts: seq<int>, orphans: int, parentN: int, m: nat)
    requires m <= |counts| == parentN && 0 <= orphans <= parentN
    requires forall i :: 0 <= i < parentN ==> counts[i] >= 0
    ensures forall x :: x in Layout(counts, orphans, parentN, m) ==>
              exists p :: 0 <= p < parentN && x == GroupOrdinal(p, orphans, parentN)
  {
    forall x | x in Layout(counts, orphans, parentN, m)
      ensures exists p :: 0 <= p < parentN && x == GroupOrdinal(p, orphans, parentN)
    {
      LayoutCounts(counts, orphans, parentN, m, x);
      assert multiset(Layout(counts, orphans, parentN, m))[x] > 0;
    }
  }

  lemma OrphanRun(counts: seq<int>, nonEmpty: int, want: int, orphans: int)
    requires 0 <= nonEmpty <= |counts| && want >= 0 && OrphanGroups(counts, nonEmpty, want, orphans)
    requires forall i :: 0 <= i < |counts| ==> counts[i] >= 0
    ensures 0 <= orphans <= nonEmpty
    ensures orphans > 0 ==> Sum(counts[..orphans]) < want + counts[orphans - 1]
    ensures orphans < nonEmpty && !(orphans == |counts| - 1 && nonEmpty == |counts|) ==> Sum(counts[..orphans]) >= want
  {
    if want == 0 {
      assert counts[..0] == [];
    } else {
      var g :| ShortestRun(counts, nonEmpty, want, g) && orphans == (if g >= |counts| then Max(0, |counts| - 1) else g);
      if orphans > 0 {
        SumSnoc(counts, orphans - 1);
        PrefixSumMonotone(counts, orphans - 1, g - 1);
      }
    }
  }

  /** The orphan rows are a prefix of the rows: those of the shortest run of groups
      reaching the recorded fraction, overshooting it by less than the last group. */
  lemma AssignmentOrphanRows(out: seq<int>, counts: seq<int>, orphans: int, pow: Pow, fo: Fanout, of: Option<real>,
                             childN: int, parentN: int, declaredChild: int)
    requires parentN >= 1 && childN >= 1
    requires FanoutAssignment(out, counts, orphans, pow, fo, of, childN, parentN, declaredChild)
    ensures |out| == childN && |counts| == parentN && 0 <= orphans <= Populated(fo, parentN, childN)
    ensures forall i :: 0 <= i < childN ==> (out[i] >= parentN <==> i < Sum(counts[..orphans]))
    ensures forall i :: 0 <= i < childN ==> 0 <= out[i] < parentN + orphans
    ensures orphans > 0 ==> Sum(counts[..orphans]) < OrphanRowsWanted(of, childN) + counts[orphans - 1]
    ensures orphans < Populated(fo, parentN, childN)
            && !(orphans == parentN - 1 && Populated(fo, parentN, childN) == parentN) ==>
              Sum(counts[..orphans]) >= OrphanRowsWanted(of, childN)
  {
    var n, want := Populated(fo, parentN, childN), OrphanRowsWanted(of, childN);
    TargetCountsTotal(counts, pow, fo, parentN, childN, declaredChild);
    OrphanGroupsBounded(counts, n, want, orphans);
    LayoutOrphanRows(counts, orphans, parentN, parentN);
    WholePrefix(counts);
    OrphanRun(counts, n, want, orphans);
  }

  /** The engine documents that it never orphans every group. It compares the number of
      orphan groups with the number of parents rather than of groups that are served, so
      every child dangles exactly when some parent is childless and the rows wanted exceed
      what all served groups but the last hold. */
  lemma AllChildrenDangleIff(out: seq<int>, counts: seq<int>, orphans: int, pow: Pow, fo: Fanout, of: Option<real>,
                             childN: int, parentN: int, declaredChild: int)
    requires parentN >= 1 && childN >= 1
    requires FanoutAssignment(out, counts, orphans, pow, fo, of, childN, parentN, declaredChild)
    ensures |out| == childN && |counts| == parentN
    ensures (forall i :: 0 <= i < childN ==> out[i] >= parentN) <==>
            (&& Served(fo, parentN, childN) < parentN
             && OrphanRowsWanted(of, childN) > Sum(counts[..Served(fo, parentN, childN) - 1]))
  {
    var n, m, want := Populated(fo, parentN, childN), Served(fo, parentN, childN), OrphanRowsWanted(of, childN);
    AssignmentOrphanRows(out, counts, orphans, pow, fo, of, childN, parentN, declaredChild);
    ServedTotal(counts, pow, fo, parentN, childN, declaredChild);
    assert (forall i :: 0 <= i < childN ==> out[i] >= parentN) <==> Sum(counts[..orphans]) >= childN by {
      if forall i :: 0 <= i < childN ==> out[i] >= parentN {
        assert out[childN - 1] >= parentN;
      }
    }
    if orphans < m {
      PrefixSumMonotone(counts, orphans, m);
    } else {
      PrefixSumMonotone(counts, m, orphans);
    }
    ServedOrphansIff(counts, n, m, want, orphans);
  }

  lemma ServedOrphansIff(counts: seq<int>, n: int, m: int, want: int, orphans: int)
    requires 1 <= m <= n <= |counts| && want >= 0 && OrphanGroups(counts, n, want, orphans)
    requires forall i :: 0 <= i < |counts| ==> counts[i] >= 0
    ensures orphans >= m <==> m < |counts| && want > Sum(counts[..m - 1])
  {
    PrefixSumMonotone(counts, 0, m - 1);
    assert counts[..0] == [];
    if want > 0 {
      var g :| ShortestRun(counts, n, want, g) && orphans == (if g >= |counts| then Max(0, |counts| - 1) else g);
      if g < m {
        PrefixSumMonotone(counts, g, m - 1);
      } else if g > 0 {
        PrefixSumMonotone(counts, m - 1, g - 1);
      }
    }
  }

  /** One populated parent out of two, one hundred children, one percent orphans:
      all hundred rows dangle. */
  lemma WholeReferenceCanDangle(out: seq<int>, counts: seq<int>, orphans: int, pow: Pow)
    requires FanoutAssignment(out, counts, orphans, pow, Fanout(100.0, 100.0, 100.0, 100.0), Some(0.01), 100, 2, 100)
    ensures |out| == 100 && forall i :: 0 <= i < 100 ==> out[i] >= 2
  {
    var fo := Fanout(100.0, 100.0, 100.0, 100.0);
    assert Populated(fo, 2, 100) == 1;
    assert OrphanRowsWanted(Some(0.01), 100) == 1;
    AllChildrenDangleIff(out, counts, orphans, pow, fo, Some(0.01), 100, 2, 100);
    assert counts[..0] == [];
  }
}
