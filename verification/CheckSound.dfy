/** What keeping to the merged domain of a column's CHECK constraints guarantees. */
module CheckSound {
  import opened CheckDomains
  import opened Numbers
  import opened Order
  import opened Values
  import opened Wrappers

  // ----- applyCheckDomain -----

  function ClampReal(f: real, min: Option<real>, max: Option<real>): real {
    var g := if min.Some? && f < min.value then min.value else f;
    if max.Some? && g > max.value then max.value else g
  }

  /** clampNumeric: an integer is clamped as a float and truncated back. */
  function ClampNumeric(v: Value, min: Option<real>, max: Option<real>): Value {
    match v
    case Int(n) => Int(Trunc(ClampReal(n as real, min, max)))
    case Num(x) => Num(ClampReal(x, min, max))
    case _ => v
  }

  /** draw is the generator's next 64-bit value. */
  function ApplyCheckDomain(v: Value, dom: Domain, draw: nat): Value {
    if v == Null then Null
    else if |dom.values| > 0 then Text(dom.values[draw % |dom.values|])
    else ClampNumeric(v, dom.min, dom.max)
  }

  // ----- what a check demands -----

  predicate Numeric(v: Value) {
    v.Int? || v.Num?
  }

  function NumberOf(v: Value): real
    requires Numeric(v)
  {
    if v.Int? then v.i as real else v.x
  }

  /** The check as the database evaluates it on a non-null value. */
  predicate Satisfies(c: Check, v: Value) {
    match c
    case In(vs) => v.Text? && v.s in vs
    case AtLeast(k) => Numeric(v) && NumberOf(v) >= k
    case Above(k) => Numeric(v) && NumberOf(v) > k
    case AtMost(k) => Numeric(v) && NumberOf(v) <= k
    case Below(k) => Numeric(v) && NumberOf(v) < k
  }

  ghost predicate SatisfiesAll(checks: seq<Check>, v: Value) {
    forall c :: c in checks ==> Satisfies(c, v)
  }

  ghost predicate OnlyBounds(checks: seq<Check>) {
    forall c :: c in checks ==> !c.In?
  }

  /** What the parser yields for IN: a list with something in it. */
  ghost predicate OnlyLists(checks: seq<Check>) {
    forall c :: c in checks ==> c.In? && c.values != []
  }

  // ----- the merged bounds -----

  /** lo is the greatest lower bound the checks set, hi the least upper bound. */
  ghost predicate BoundsOf(checks: seq<Check>, lo: Option<real>, hi: Option<real>) {
    && (forall c :: c in checks && DomainOf(c).min.Some? ==> lo.Some? && DomainOf(c).min.value <= lo.value)
    && (forall c :: c in checks && DomainOf(c).max.Some? ==> hi.Some? && hi.value <= DomainOf(c).max.value)
    && (lo.Some? ==> exists c :: c in checks && DomainOf(c).min == lo)
    && (hi.Some? ==> exists c :: c in checks && DomainOf(c).max == hi)
  }

  lemma {:induction false} MergedBounds(checks: seq<Check>)
    ensures BoundsOf(checks, Merged(checks).min, Merged(checks).max)
  {
    if checks != [] {
      var n := |checks| - 1;
      var init, c := checks[..n], checks[n];
      MergedBounds(init);
      assert checks == init + [c];
      assert c in checks;
      var m, m' := Merged(init), Merged(checks);
      if m'.min.Some? && m'.min == m.min {
        var d :| d in init && DomainOf(d).min == m.min;
        assert d in checks;
      }
      if m'.max.Some? && m'.max == m.max {
        var d :| d in init && DomainOf(d).max == m.max;
        assert d in checks;
      }
    }
  }

  ghost predicate Consistent(dom: Domain) {
    dom.min.Some? && dom.max.Some? ==> dom.min.value <= dom.max.value
  }

  lemma {:induction false} MergedValuesOfBounds(checks: seq<Check>)
    requires OnlyBounds(checks)
    ensures Merged(checks).values == []
  {
    if checks != [] {
      var n := |checks| - 1;
      assert checks[n] in checks;
      assert forall c :: c in checks[..n] ==> c in checks;
      MergedValuesOfBounds(checks[..n]);
    }
  }

  /** Any number inside the merged bounds meets every check. */
  lemma InsideSatisfies(checks: seq<Check>, v: Value)
    requires OnlyBounds(checks) && Numeric(v)
    requires Merged(checks).min.Some? ==> Merged(checks).min.value <= NumberOf(v)
    requires Merged(checks).max.Some? ==> NumberOf(v) <= Merged(checks).max.value
    ensures SatisfiesAll(checks, v)
  {
    MergedBounds(checks);
  }

  /** Bounds that exclude each other leave every number at the upper one, which is clamped to last. */
  lemma InconsistentClamp(f: real, min: Option<real>, max: Option<real>)
    requires min.Some? && max.Some? && min.value > max.value
    ensures ClampReal(f, min, max) == max.value
  {
  }

  /** Fractional values land inside every check exactly when the merged bounds are
      consistent, or the upper bound alone happens to meet the checks. */
  lemma ClampedNumbersSatisfyIff(checks: seq<Check>, draw: nat)
    requires OnlyBounds(checks)
    ensures (forall x: real :: SatisfiesAll(checks, ApplyCheckDomain(Num(x), Merged(checks), draw)))
            <==> Consistent(Merged(checks)) || SatisfiesAll(checks, Num(Merged(checks).max.value))
  {
    MergedValuesOfBounds(checks);
    var m := Merged(checks);
    if Consistent(m) {
      forall x: real
        ensures SatisfiesAll(checks, ApplyCheckDomain(Num(x), m, draw))
      {
        InsideSatisfies(checks, ApplyCheckDomain(Num(x), m, draw));
      }
    } else {
      forall x: real
        ensures ApplyCheckDomain(Num(x), m, draw) == Num(m.max.value)
      {
        InconsistentClamp(x, m.min, m.max);
      }
      assert ApplyCheckDomain(Num(0.0), m, draw) == Num(m.max.value);
    }
  }

  /** Both bounds, truncated the way an integer cell truncates them, meet the checks. */
  ghost predicate TruncatedBoundsSatisfy(checks: seq<Check>) {
    && (Merged(checks).min.Some? ==> SatisfiesAll(checks, Int(Trunc(Merged(checks).min.value))))
    && (Merged(checks).max.Some? ==> SatisfiesAll(checks, Int(Trunc(Merged(checks).max.value))))
  }

  lemma ClampBelow(n: int, min: Option<real>, max: Option<real>)
    requires min.Some? && (max.Some? ==> min.value <= max.value)
    ensures (n as real) < min.value ==> ClampNumeric(Int(n), min, max) == Int(Trunc(min.value))
  {
  }

  lemma ClampAbove(n: int, min: Option<real>, max: Option<real>)
    requires max.Some? && (min.Some? ==> min.value <= max.value)
    ensures (n as real) > max.value ==> ClampNumeric(Int(n), min, max) == Int(Trunc(max.value))
  {
  }

  lemma ClampInside(n: int, min: Option<real>, max: Option<real>)
    requires min.Some? ==> min.value <= n as real
    requires max.Some? ==> n as real <= max.value
    ensures ClampNumeric(Int(n), min, max) == Int(n)
  {
    TruncOfInt(n);
  }

  lemma AppliedIsClamped(checks: seq<Check>, n: int, draw: nat)
    requires OnlyBounds(checks)
    ensures ApplyCheckDomain(Int(n), Merged(checks), draw)
            == ClampNumeric(Int(n), Merged(checks).min, Merged(checks).max)
  {
    MergedValuesOfBounds(checks);
  }

  /** The bound an integer is moved to, truncated, meets the checks. */
  ghost predicate BoundsMet(checks: seq<Check>, n: int) {
    var m := Merged(checks);
    if !Consistent(m) || (m.max.Some? && n as real > m.max.value) then SatisfiesAll(checks, Int(Trunc(m.max.value)))
    else m.min.Some? && (n as real) < m.min.value ==> SatisfiesAll(checks, Int(Trunc(m.min.value)))
  }

  /** An integer cell meets every check exactly when it is inside the merged bounds or the
      bound it is moved to survives truncation. */
  lemma ClampedIntegerSatisfiesIff(checks: seq<Check>, n: int, draw: nat)
    requires OnlyBounds(checks)
    ensures SatisfiesAll(checks, ApplyCheckDomain(Int(n), Merged(checks), draw)) <==> BoundsMet(checks, n)
  {
    var m := Merged(checks);
    AppliedIsClamped(checks, n, draw);
    if !Consistent(m) {
      InconsistentClamp(n as real, m.min, m.max);
    } else if m.min.Some? && (n as real) < m.min.value {
      ClampBelow(n, m.min, m.max);
    } else if m.max.Some? && (n as real) > m.max.value {
      ClampAbove(n, m.min, m.max);
    } else {
      ClampInside(n, m.min, m.max);
      InsideSatisfies(checks, Int(n));
    }
  }

  /** Every integer lands inside every check exactly when both truncated bounds meet the
      checks, or, with bounds that exclude each other, the truncated upper one does. */
  lemma ClampedIntegersSatisfyIff(checks: seq<Check>, draw: nat)
    requires OnlyBounds(checks)
    ensures (forall n: int :: SatisfiesAll(checks, ApplyCheckDomain(Int(n), Merged(checks), draw)))
            <==> if Consistent(Merged(checks)) then TruncatedBoundsSatisfy(checks)
                 else SatisfiesAll(checks, Int(Trunc(Merged(checks).max.value)))
  {
    var m := Merged(checks);
    forall n: int
      ensures SatisfiesAll(checks, ApplyCheckDomain(Int(n), m, draw)) <==> BoundsMet(checks, n)
    {
      ClampedIntegerSatisfiesIff(checks, n, draw);
    }
    AllBoundsMetIff(checks);
    if forall n: int :: SatisfiesAll(checks, ApplyCheckDomain(Int(n), m, draw)) {
      forall n: int
        ensures BoundsMet(checks, n)
      {
        assert SatisfiesAll(checks, ApplyCheckDomain(Int(n), m, draw));
      }
    }
  }

  lemma AllBoundsMetIff(checks: seq<Check>)
    ensures (forall n: int :: BoundsMet(checks, n))
            <==> if Consistent(Merged(checks)) then TruncatedBoundsSatisfy(checks)
                 else SatisfiesAll(checks, Int(Trunc(Merged(checks).max.value)))
  {
    var m := Merged(checks);
    if forall n: int :: BoundsMet(checks, n) {
      if m.min.Some? {
        assert BoundsMet(checks, m.min.value.Floor - 1);
      }
      if m.max.Some? {
        assert BoundsMet(checks, m.max.value.Floor + 1);
      }
    }
  }

  lemma TruncOfInt(n: int)
    ensures Trunc(n as real) == n
  {
  }

  /** Between consistent bounds an integer is moved to the truncated one it passes, and by
      bounds that exclude each other to the upper one. */
  lemma ClampedInt(dom: Domain, a: int)
    ensures var n := Trunc(ClampReal(a as real, dom.min, dom.max));
            if dom.min.Some? && dom.max.Some? && dom.min.value > dom.max.value then n == Trunc(dom.max.value)
            else if dom.min.Some? && a <= Trunc(dom.min.value) then n == Trunc(dom.min.value)
            else if dom.max.Some? && a >= Trunc(dom.max.value) then n == Trunc(dom.max.value)
            else n == a
  {
    TruncOfInt(a);
  }

  ghost predicate Integral(dom: Domain) {
    && (dom.min.Some? ==> dom.min.value == Trunc(dom.min.value) as real)
    && (dom.max.Some? ==> dom.max.value == Trunc(dom.max.value) as real)
  }

  /** With integral bounds, the shape such checks have in practice, an integer lands inside
      every check exactly when the merged bounds are consistent, whatever the integer. */
  lemma IntegralBoundsAreSafeIff(checks: seq<Check>, n: int, draw: nat)
    requires OnlyBounds(checks) && Integral(Merged(checks))
    ensures SatisfiesAll(checks, ApplyCheckDomain(Int(n), Merged(checks), draw)) <==> Consistent(Merged(checks))
  {
    var m := Merged(checks);
    ClampedIntegerSatisfiesIff(checks, n, draw);
    if Consistent(m) {
      if m.min.Some? {
        InsideSatisfies(checks, Int(Trunc(m.min.value)));
      }
      if m.max.Some? {
        InsideSatisfies(checks, Int(Trunc(m.max.value)));
      }
    } else {
      IntegralExclude(checks);
    }
  }

  lemma IntegralExclude(checks: seq<Check>)
    requires Integral(Merged(checks)) && !Consistent(Merged(checks))
    ensures !SatisfiesAll(checks, Int(Trunc(Merged(checks).max.value)))
  {
    var m := Merged(checks);
    MergedBounds(checks);
    var c :| c in checks && DomainOf(c).min == m.min;
    var low, high := Trunc(m.min.value), Trunc(m.max.value);
    assert (high as real) < low as real;
    LowerBoundMissed(c, low, high);
  }

  lemma LowerBoundMissed(c: Check, low: int, high: int)
    requires DomainOf(c).min == Some(low as real) && high < low
    ensures !Satisfies(c, Int(high))
  {
    assert high as real <= low as real - 1.0;
  }

  /** CHECK (ratio > 0 AND ratio < 1): the strict bounds are moved inside by one each and
      past each other, so every number becomes 0, which is not above 0; one half met both. */
  lemma StrictUnitIntervalViolated(v: Value, draw: nat)
    requires Numeric(v)
    ensures !SatisfiesAll([Above(0.0), Below(1.0)], ApplyCheckDomain(v, Merged([Above(0.0), Below(1.0)]), draw))
    ensures SatisfiesAll([Above(0.0), Below(1.0)], Num(0.5))
  {
    var checks := [Above(0.0), Below(1.0)];
    MergedSnoc([], Above(0.0));
    MergedSnoc([Above(0.0)], Below(1.0));
    assert [] + [Above(0.0)] == [Above(0.0)] && [Above(0.0)] + [Below(1.0)] == checks;
    assert Merged(checks) == Domain([], Some(1.0), Some(0.0));
    assert Above(0.0) in checks;
    InconsistentClamp(NumberOf(v), Some(1.0), Some(0.0));
  }

  /** CHECK (qty >= 0.5) on an integer column: zero is clamped to 0.5 and truncated back to zero. */
  lemma FractionalBoundCanBeViolated(draw: nat)
    ensures !SatisfiesAll([AtLeast(0.5)], ApplyCheckDomain(Int(0), Merged([AtLeast(0.5)]), draw))
  {
    var checks := [AtLeast(0.5)];
    assert checks[..0] == [];
    assert Merged(checks) == Domain([], Some(0.5), None);
    assert AtLeast(0.5) in checks;
  }

  // ----- value lists -----

  ghost predicate Common(checks: seq<Check>, x: string) {
    forall c :: c in checks ==> c.In? && x in c.values
  }

  /** While some value is in every list, the merged list is their intersection. */
  lemma {:induction false} MergedLists(checks: seq<Check>)
    requires checks != [] && OnlyLists(checks)
    requires exists x :: Common(checks, x)
    ensures forall x :: x in Merged(checks).values <==> Common(checks, x)
    ensures Merged(checks).values != []
  {
    var n := |checks| - 1;
    var init, c := checks[..n], checks[n];
    assert checks == init + [c];
    assert c in checks;
    var w :| Common(checks, w);
    assert forall x :: Common(checks, x) <==> Common(init, x) && x in c.values;
    if n == 0 {
      assert Merged(init) == ANYTHING;
    } else {
      assert Common(init, w);
      MergedLists(init);
      var a, b := Merged(init).values, c.values;
      assert forall x :: x in Intersect(a, b) <==> x in Elements(Intersect(a, b));
      assert forall x :: x in a && x in b <==> x in Elements(a) * Elements(b);
    }
    assert w in Merged(checks).values;
  }

  /** The value drawn is in every list exactly when the lists have a value in common;
      otherwise the merge forgets the lists it has emptied. */
  lemma DrawnValueSatisfiesIff(checks: seq<Check>, v: Value, draw: nat)
    requires checks != [] && OnlyLists(checks) && v != Null
    ensures SatisfiesAll(checks, ApplyCheckDomain(v, Merged(checks), draw)) <==> exists x :: Common(checks, x)
  {
    var r := ApplyCheckDomain(v, Merged(checks), draw);
    if exists x :: Common(checks, x) {
      MergedLists(checks);
      assert r.s in Merged(checks).values;
    }
    if SatisfiesAll(checks, r) {
      assert checks[0] in checks;
      assert Common(checks, r.s);
    }
  }

  // ----- any checks on any cell -----

  /** What a generated value needs for its cell to meet the checks: lists alone, with a
      common value, or bounds alone, and then an integer that survives them. */
  ghost predicate Met(checks: seq<Check>, v: Value) {
    || (OnlyLists(checks) && exists x :: Common(checks, x))
    || (OnlyBounds(checks) && (checks == [] || (v.Int? && BoundsMet(checks, v.i))))
  }

  /** A cell that is not NULL meets every check on its column exactly when Met holds. */
  lemma CellMeetsChecksIff(checks: seq<Check>, v: Value, draw: nat)
    requires v != Null && !v.Num?
    requires forall c :: c in checks && c.In? ==> c.values != []
    ensures SatisfiesAll(checks, ApplyCheckDomain(v, Merged(checks), draw)) <==> Met(checks, v)
  {
    var cell := ApplyCheckDomain(v, Merged(checks), draw);
    if OnlyBounds(checks) {
      MergedValuesOfBounds(checks);
      if checks == [] {
        assert SatisfiesAll(checks, cell);
      } else if v.Int? {
        ClampedIntegerSatisfiesIff(checks, v.i, draw);
        NoListAmongBounds(checks);
      } else {
        assert checks[0] in checks && !Satisfies(checks[0], cell);
        NoListAmongBounds(checks);
      }
    } else if OnlyLists(checks) {
      SomeListHasCheck(checks);
      DrawnValueSatisfiesIff(checks, v, draw);
    } else {
      var bound :| bound in checks && !bound.In?;
      var list :| list in checks && list.In?;
      assert !(Satisfies(bound, cell) && Satisfies(list, cell));
    }
  }

  lemma NoListAmongBounds(checks: seq<Check>)
    requires checks != [] && OnlyBounds(checks)
    ensures !OnlyLists(checks)
  {
    assert checks[0] in checks;
  }

  lemma SomeListHasCheck(checks: seq<Check>)
    requires !OnlyBounds(checks)
    ensures checks != []
  {
  }

  // ----- the order of the constraints -----

  ghost predicate SameDomain(a: Domain, b: Domain) {
    Elements(a.values) == Elements(b.values) && a.min == b.min && a.max == b.max
  }

  lemma BoundsUnique(a: seq<Check>, b: seq<Check>)
    requires forall c :: c in a <==> c in b
    ensures Merged(a).min == Merged(b).min && Merged(a).max == Merged(b).max
  {
    MergedBounds(a);
    MergedBounds(b);
    SameBounds(a, b, Merged(a).min, Merged(a).max, Merged(b).min, Merged(b).max);
  }

  lemma SameBounds(a: seq<Check>, b: seq<Check>, l: Option<real>, h: Option<real>, m: Option<real>, g: Option<real>)
    requires (forall c :: c in a <==> c in b) && BoundsOf(a, l, h) && BoundsOf(b, m, g)
    ensures l == m && h == g
  {
  }

  ghost function Lists(checks: seq<Check>): seq<Check> {
    if checks == [] then []
    else
      var n := |checks| - 1;
      Lists(checks[..n]) + (if checks[n].In? then [checks[n]] else [])
  }

  lemma {:induction false} ListsMembers(checks: seq<Check>)
    ensures forall c :: c in Lists(checks) <==> c in checks && c.In?
  {
    if checks != [] {
      var n := |checks| - 1;
      ListsMembers(checks[..n]);
      assert checks == checks[..n] + [checks[n]];
    }
  }

  /** The value lists of the checks put together by f, bounds passed over. */
  ghost function FoldValues(f: (seq<string>, seq<string>) -> seq<string>, checks: seq<Check>): seq<string> {
    if checks == [] then []
    else
      var n := |checks| - 1;
      var v := DomainOf(checks[n]).values;
      if v == [] then FoldValues(f, checks[..n]) else f(FoldValues(f, checks[..n]), v)
  }

  lemma {:induction false} FoldLists(f: (seq<string>, seq<string>) -> seq<string>, checks: seq<Check>)
    ensures FoldValues(f, Lists(checks)) == FoldValues(f, checks)
  {
    if checks != [] {
      var init, c := checks[..|checks| - 1], checks[|checks| - 1];
      FoldLists(f, init);
      if c.In? {
        assert (Lists(init) + [c])[..|Lists(init)|] == Lists(init);
      } else {
        assert Lists(init) + [] == Lists(init);
      }
    }
  }

  function Combined(a: seq<string>, b: seq<string>): seq<string> {
    if a == [] then b else Intersect(a, b)
  }

  lemma MergedValues(a: Domain, b: Domain)
    ensures MergeDomain(a, b).values == if b.values == [] then a.values else Combined(a.values, b.values)
  {
  }

  lemma {:induction false} MergedIsFold(checks: seq<Check>)
    ensures Merged(checks).values == FoldValues(Combined, checks)
  {
    if checks != [] {
      MergedIsFold(checks[..|checks| - 1]);
      MergedValues(Merged(checks[..|checks| - 1]), DomainOf(checks[|checks| - 1]));
    }
  }

  lemma ListsValues(checks: seq<Check>)
    ensures Merged(Lists(checks)).values == Merged(checks).values
  {
    MergedIsFold(Lists(checks));
    MergedIsFold(checks);
    FoldLists(Combined, checks);
  }

  /** The order of the constraints does not change the merged domain, provided the
      value lists among them have a value in common. */
  lemma MergeOrderIrrelevant(a: seq<Check>, b: seq<Check>)
    requires multiset(a) == multiset(b)
    requires forall c :: c in a && c.In? ==> c.values != []
    requires exists x :: Common(Lists(a), x)
    ensures SameDomain(Merged(a), Merged(b))
  {
    SameMembers(a, b);
    BoundsUnique(a, b);
    ListsMembers(a);
    ListsMembers(b);
    ListsValues(a);
    ListsValues(b);
    SameLists(Lists(a), Lists(b));
  }

  lemma SameMembers(a: seq<Check>, b: seq<Check>)
    requires multiset(a) == multiset(b)
    ensures forall c :: c in a <==> c in b
  {
    assert forall c :: c in a <==> c in multiset(a);
    assert forall c :: c in b <==> c in multiset(b);
  }

  lemma SameLists(a: seq<Check>, b: seq<Check>)
    requires forall c :: c in a <==> c in b
    requires OnlyLists(a) && exists x :: Common(a, x)
    ensures Elements(Merged(a).values) == Elements(Merged(b).values)
  {
    if a == [] {
      NoMembers(b);
    } else {
      assert a[0] in b;
      var w :| Common(a, w);
      assert Common(b, w);
      MergedLists(a);
      MergedLists(b);
      forall x
        ensures Common(a, x) <==> Common(b, x)
      {
      }
    }
  }

  lemma NoMembers(b: seq<Check>)
    requires forall c :: c !in b
    ensures b == []
  {
    if b != [] {
      MemberAt(b);
    }
  }

  lemma MemberAt(b: seq<Check>)
    requires b != []
    ensures exists c :: c in b
  {
    assert b[0] in b;
  }

  /** The value lists of a merged domain let x through. */
  ghost predicate Admits(dom: Domain, x: string) {
    dom.values == [] || x in dom.values
  }

  ghost predicate AdmitsCommon(checks: seq<Check>, x: string) {
    Admits(Merged(checks), x) <==> Common(Lists(checks), x)
  }

  /** In every order the constraints admit exactly the values in all lists if and only if
      there is no list or the lists have a value in common. */
  lemma EveryOrderAdmitsCommonIff(a: seq<Check>)
    requires forall c :: c in a && c.In? ==> c.values != []
    ensures (forall b, x :: multiset(b) == multiset(a) ==> AdmitsCommon(b, x))
            <==> Lists(a) == [] || exists x :: Common(Lists(a), x)
  {
    if Lists(a) == [] || exists x :: Common(Lists(a), x) {
      forall b, x | multiset(b) == multiset(a)
        ensures AdmitsCommon(b, x)
      {
        OrderAdmitsCommon(a, b, x);
      }
    } else {
      var x: string := if Merged(a).values == [] then "" else Merged(a).values[0];
      assert Admits(Merged(a), x) && !AdmitsCommon(a, x);
    }
  }

  lemma OrderAdmitsCommon(a: seq<Check>, b: seq<Check>, x: string)
    requires multiset(b) == multiset(a) && forall c :: c in a && c.In? ==> c.values != []
    requires Lists(a) == [] || exists y :: Common(Lists(a), y)
    ensures AdmitsCommon(b, x)
  {
    SameMembers(a, b);
    ListsMembers(a);
    ListsMembers(b);
    ListsValues(a);
    ListsValues(b);
    if Lists(a) == [] {
      NoMembers(Lists(b));
      assert Merged([]).values == [];
    } else {
      assert Lists(a)[0] in Lists(a);
      assert Lists(a)[0] in Lists(b);
      var y :| Common(Lists(a), y);
      assert Common(Lists(b), y);
      MergedLists(Lists(b));
    }
  }

  /** Without a common value the order can decide: the emptied list is taken for none. */
  lemma MergeOrderCanMatter()
    ensures Merged([In(["a"]), In(["b"]), In(["c"])]).values == ["c"]
    ensures Merged([In(["c"]), In(["b"]), In(["a"])]).values == ["a"]
  {
    Three(["a"], ["b"], ["c"]);
    Three(["c"], ["b"], ["a"]);
  }

  lemma Three(x: seq<string>, y: seq<string>, z: seq<string>)
    requires x != [] && y != [] && z != [] && Elements(x) * Elements(y) == {}
    ensures Merged([In(x), In(y), In(z)]).values == z
  {
    MergedSnoc([], In(x));
    MergedSnoc([In(x)], In(y));
    MergedSnoc([In(x), In(y)], In(z));
    NoElements(Intersect(x, y));
    assert [] + [In(x)] == [In(x)];
    assert [In(x)] + [In(y)] == [In(x), In(y)];
    assert [In(x), In(y)] + [In(z)] == [In(x), In(y), In(z)];
    var first := Merged([In(x)]);
    assert first.values == x;
    var second := Merged([In(x), In(y)]);
    assert second.values == [];
  }

  lemma NoElements(s: seq<string>)
    requires Elements(s) == {}
    ensures s == []
  {
    if s != [] {
      HasElement(s);
    }
  }
}
