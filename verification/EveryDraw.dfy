/** When a parent holds its children's keys whatever is drawn: a condition on the fixture
    alone (internal/hydrate/engine.go). */
module EveryDraw {
  import opened CheckDomains
  import opened CheckSound
  import opened Columns
  import opened Engine
  import opened Holders
  import opened Keys
  import opened Numbers
  import O = Orphans
  import opened Prng
  import opened Rendering
  import opened Values
  import opened Wrappers

  /** What a generator of 64-bit words can draw. */
  ghost predicate Words(d: Draws) {
    forall table, column, ord, k :: d(table, column, ord, k) < TWO_64
  }

  /** Draws that give x first and y from then on. */
  function Two(x: nat, y: nat): Draws {
    (table: string, column: string, ord: nat, k: nat) => if k == 0 then x else y
  }

  /** The value of a column that is not unique, from the first two numbers drawn. */
  function SharedDrawn(lib: Library, types: Types, c: Column, x: nat, y: nat): Value {
    var sampled := if SampledColumn(types, c) then SampleHistogram(c.histogram.value, x, y) else Sampled(None, 0);
    if sampled.value.Some? then sampled.value.value
    else Bucket(lib, types, c, Intn(if sampled.drawn == 0 then x else y, Buckets(c)))
  }

  predicate SampledColumn(types: Types, c: Column) {
    c.histogram.Some? && Categorize(ResolveType(types, c.typ)).Numeric?
  }

  /** What one bucket of a column that is not unique renders. */
  function Bucket(lib: Library, types: Types, c: Column, b: nat): Value {
    FakeValue(lib, BaseColumn(types, c), b, false)
  }

  lemma SharedIsDrawn(w: World, types: Types, table: string, column: string, c: Column, ord: nat)
    ensures SharedValue(w, types, table, column, c, ord)
            == SharedDrawn(w.lib, types, c, w.draws(table, column, ord, 0), w.draws(table, column, ord, 1))
  {
  }

  // ----- sampled numbers -----

  const LAST: nat := 0xFFFF_FFFF_FFFF_FFFF

  lemma FractionBetween(y: nat)
    requires y < TWO_64
    ensures Fraction(0) == 0.0 <= Fraction(y) <= Fraction(LAST)
  {
    assert y / 2048 <= LAST / 2048;
    DivideMonotone((y / 2048) as real, (LAST / 2048) as real, TWO_53 as real);
  }

  lemma DivideMonotone(a: real, b: real, d: real)
    requires 0.0 <= a <= b && d > 0.0
    ensures 0.0 <= a / d <= b / d
  {
  }

  /** What a bucket of two readable bounds yields at a fraction of the way. */
  function PointOf(l: real, h: real, fraction: real): int {
    ToI64(Interpolated(l, h, fraction))
  }

  lemma PointMonotone(l: real, h: real, u: real, v: real)
    requires u <= v
    ensures PointOf(l, h, u) <= PointOf(l, h, v)
  {
    ProductMonotone(if h < l then l - h else h - l, u, v);
    ToI64Monotone(Interpolated(l, h, u), Interpolated(l, h, v));
  }

  /** Clamping and truncating keep the order of integers. */
  lemma ClampedMonotone(n: int, m: int, min: Option<real>, max: Option<real>)
    requires n <= m
    ensures Trunc(ClampReal(n as real, min, max)) <= Trunc(ClampReal(m as real, min, max))
  {
    TruncMonotone(ClampReal(n as real, min, max), ClampReal(m as real, min, max));
  }

  lemma TruncMonotone(x: real, y: real)
    requires x <= y
    ensures Trunc(x) <= Trunc(y)
  {
  }

  /** What holds at both ends holds between. */
  lemma BetweenEnds(dom: Domain, key: Value, n: int, m: int, k: int)
    requires n <= k <= m && EndsAs(dom, Int(n), key) && EndsAs(dom, Int(m), key)
    ensures EndsAs(dom, Int(k), key)
  {
    ClampedMonotone(n, k, dom.min, dom.max);
    ClampedMonotone(k, m, dom.min, dom.max);
  }

  // ----- the condition -----

  /** Every bucket renders what ends up as the key. */
  ghost predicate BucketsEnd(lib: Library, types: Types, c: Column, dom: Domain, key: Value) {
    forall b: nat :: b < Buckets(c) ==> EndsAs(dom, Bucket(lib, types, c, b), key)
  }

  /** The least and the greatest number of one histogram bucket end up as the key; where its
      bounds are no numbers, what is rendered instead does. */
  ghost predicate SampleEnds(lib: Library, types: Types, c: Column, dom: Domain, key: Value, b: nat)
    requires c.histogram.Some? && b + 1 < |c.histogram.value|
  {
    var l, h := ToFloat(c.histogram.value[b]), ToFloat(c.histogram.value[b + 1]);
    if l.None? || h.None? then BucketsEnd(lib, types, c, dom, key)
    else
      && EndsAs(dom, Int(PointOf(l.value, h.value, Fraction(0))), key)
      && EndsAs(dom, Int(PointOf(l.value, h.value, Fraction(LAST))), key)
  }

  ghost predicate SharedEnds(lib: Library, types: Types, c: Column, dom: Domain, key: Value) {
    if SampledColumn(types, c) && |c.histogram.value| >= 2 then
      forall b: nat :: b < |c.histogram.value| - 1 ==> SampleEnds(lib, types, c, dom, key, b)
    else BucketsEnd(lib, types, c, dom, key)
  }

  /** A parent's cell is its children's key whatever is drawn: in a borrowed column and for a row
      that comes from its ordinal as without draws; never where it is NULL; where texts are drawn
      from, if every one of them is the key; for any other column, if all that its buckets or its
      histogram can yield ends up as the key. */
  ghost predicate AlwaysHolds(w: World, f: Fixture, to: string, held: Held, ord: nat)
    requires ParentIdColumn(f, to).Some? && HasCell(held, ord)
  {
    var c, dom := ParentIdColumn(f, to).value, ParentDomain(w, f, to);
    var key, texts := ParentUniqueValue(w, c, ord), DrawnTexts(f.types, c, dom);
    if held.Borrowed? || OrdinalsOwn(w, f, to, held) then ParentHolds(w, f, to, held, ord)
    else if NullAt(c, ord) then false
    else if texts != [] then forall v :: v in texts ==> key == Text(v)
    else SharedEnds(w.lib, f.types, c, dom, key)
  }

  /** Lists are no longer than Go's integers count. */
  predicate Sized(w: World, f: Fixture, to: string)
    requires ParentIdColumn(f, to).Some?
  {
    var c := ParentIdColumn(f, to).value;
    && |DrawnTexts(f.types, c, ParentDomain(w, f, to))| <= MAX_INT64 && Buckets(c) <= MAX_INT64
    && (c.histogram.Some? ==> |c.histogram.value| <= MAX_INT64)
  }

  // ----- sampling -----

  lemma BucketDrawn(b: nat, n: nat)
    requires b < n
    ensures Intn(b, n) == b
  {
  }

  lemma SharedEndsAlways(lib: Library, types: Types, c: Column, dom: Domain, key: Value, x: nat, y: nat)
    requires SharedEnds(lib, types, c, dom, key) && y < TWO_64
    ensures EndsAs(dom, SharedDrawn(lib, types, c, x, y), key)
  {
    if SampledColumn(types, c) && |c.histogram.value| >= 2 {
      var b := Intn(x, |c.histogram.value| - 1);
      assert SampleEnds(lib, types, c, dom, key, b);
      SampleEndsAlways(lib, types, c, dom, key, x, y);
    }
  }

  lemma SampleEndsAlways(lib: Library, types: Types, c: Column, dom: Domain, key: Value, x: nat, y: nat)
    requires SampledColumn(types, c) && |c.histogram.value| >= 2 && y < TWO_64
    requires SampleEnds(lib, types, c, dom, key, Intn(x, |c.histogram.value| - 1))
    ensures EndsAs(dom, SharedDrawn(lib, types, c, x, y), key)
  {
    var b := Intn(x, |c.histogram.value| - 1);
    var l, h := ToFloat(c.histogram.value[b]), ToFloat(c.histogram.value[b + 1]);
    if l.Some? && h.Some? {
      FractionBetween(y);
      PointMonotone(l.value, h.value, Fraction(0), Fraction(y));
      PointMonotone(l.value, h.value, Fraction(y), Fraction(LAST));
      BetweenEnds(dom, key, PointOf(l.value, h.value, Fraction(0)), PointOf(l.value, h.value, Fraction(LAST)),
                  PointOf(l.value, h.value, Fraction(y)));
    }
  }

  /** Where the condition fails, two draws show it. */
  lemma SharedEndsFails(lib: Library, types: Types, c: Column, dom: Domain, key: Value) returns (x: nat, y: nat)
    requires !SharedEnds(lib, types, c, dom, key)
    requires Buckets(c) <= MAX_INT64 && (c.histogram.Some? ==> |c.histogram.value| <= MAX_INT64)
    ensures x < TWO_64 && y < TWO_64 && !EndsAs(dom, SharedDrawn(lib, types, c, x, y), key)
  {
    if SampledColumn(types, c) && |c.histogram.value| >= 2 {
      x :| x < |c.histogram.value| - 1 && !SampleEnds(lib, types, c, dom, key, x);
      y := SampleEndsFails(lib, types, c, dom, key, x);
    } else {
      x :| x < Buckets(c) && !EndsAs(dom, Bucket(lib, types, c, x), key);
      y := 0;
      BucketDrawn(x, Buckets(c));
    }
  }

  /** One histogram bucket drawn: a point between readable bounds, or a rendered bucket. */
  lemma SampleDrawn(lib: Library, types: Types, c: Column, x: nat, y: nat)
    requires SampledColumn(types, c) && x + 1 < |c.histogram.value|
    ensures var l, h := ToFloat(c.histogram.value[x]), ToFloat(c.histogram.value[x + 1]);
            SharedDrawn(lib, types, c, x, y)
            == if l.Some? && h.Some? then Int(PointOf(l.value, h.value, Fraction(y)))
               else Bucket(lib, types, c, Intn(y, Buckets(c)))
  {
    HistogramDrawn(c.histogram.value, x, y);
  }

  lemma HistogramDrawn(bounds: seq<Value>, x: nat, y: nat)
    requires x + 1 < |bounds|
    ensures var l, h := ToFloat(bounds[x]), ToFloat(bounds[x + 1]);
            SampleHistogram(bounds, x, y)
            == if l.Some? && h.Some? then Sampled(Some(Int(PointOf(l.value, h.value, Fraction(y)))), 2)
                  else Sampled(None, 1)
  {
    BucketDrawn(x, |bounds| - 1);
  }

  lemma SampleEndsFails(lib: Library, types: Types, c: Column, dom: Domain, key: Value, x: nat) returns (y: nat)
    requires SampledColumn(types, c) && x + 1 < |c.histogram.value| && !SampleEnds(lib, types, c, dom, key, x)
    requires Buckets(c) <= MAX_INT64
    ensures y < TWO_64 && !EndsAs(dom, SharedDrawn(lib, types, c, x, y), key)
  {
    var l, h := ToFloat(c.histogram.value[x]), ToFloat(c.histogram.value[x + 1]);
    if l.None? || h.None? {
      y :| y < Buckets(c) && !EndsAs(dom, Bucket(lib, types, c, y), key);
      BucketDrawn(y, Buckets(c));
    } else if !EndsAs(dom, Int(PointOf(l.value, h.value, Fraction(0))), key) {
      y := 0;
    } else {
      y := LAST;
    }
    SampleDrawn(lib, types, c, x, y);
  }

  // ----- what a column that is not unique can show -----

  /** Some 64-bit words make the column generate the value. */
  ghost predicate Shown(w: World, types: Types, table: string, column: string, c: Column, ord: nat, v: Value) {
    exists d: Draws :: Words(d) && GenerateValue(w.(draws := d), types, table, column, c, ord) == v
  }

  /** The ordinal below the known number of distinct values, or below 2^20, is rendered so. */
  ghost predicate Rendered(lib: Library, types: Types, c: Column, v: Value) {
    exists n: nat :: n < (if c.distinct.Some? && c.distinct.value > 0 then c.distinct.value else 0x10_0000)
                     && v == FakeValue(lib, BaseColumn(types, c), n, false)
  }

  /** The value is a point of the histogram's b-th bucket, or rendered where the bucket's bounds
      cannot be read. */
  ghost predicate SampledAt(lib: Library, types: Types, c: Column, v: Value, b: nat)
    requires c.histogram.Some? && b + 1 < |c.histogram.value|
  {
    var l, h := ToFloat(c.histogram.value[b]), ToFloat(c.histogram.value[b + 1]);
    if l.None? || h.None? then Rendered(lib, types, c, v)
    else exists y: nat :: y < TWO_64 && v == Int(PointOf(l.value, h.value, Fraction(y)))
  }

  /** Over all draws, a column that is not unique shows exactly the renderings of the ordinals below
      its number of distinct values, every one of them, or the points of its histogram's buckets. */
  lemma ShownIff(w: World, types: Types, table: string, column: string, c: Column, ord: nat, v: Value)
    requires !c.unique && !NullAt(c, ord) && !DrawsLabels(types, c)
    requires c.distinct.Some? ==> c.distinct.value <= MAX_INT64
    requires c.histogram.Some? ==> |c.histogram.value| <= MAX_INT64
    ensures Shown(w, types, table, column, c, ord, v)
            <==> if SampledColumn(types, c) && |c.histogram.value| >= 2 then
                   exists b: nat :: b < |c.histogram.value| - 1 && SampledAt(w.lib, types, c, v, b)
                 else Rendered(w.lib, types, c, v)
  {
    var sampled := SampledColumn(types, c) && |c.histogram.value| >= 2;
    if Shown(w, types, table, column, c, ord, v) {
      var d: Draws :| Words(d) && GenerateValue(w.(draws := d), types, table, column, c, ord) == v;
      SharedIsDrawn(w.(draws := d), types, table, column, c, ord);
      DrawnIsShown(w.lib, types, c, d(table, column, ord, 0), d(table, column, ord, 1));
    }
    if sampled && exists b: nat :: b < |c.histogram.value| - 1 && SampledAt(w.lib, types, c, v, b) {
      var b: nat :| b < |c.histogram.value| - 1 && SampledAt(w.lib, types, c, v, b);
      var y := SampleDraw(w.lib, types, c, v, b);
      ShownByTwo(w, types, table, column, c, ord, b, y);
    } else if !sampled && Rendered(w.lib, types, c, v) {
      var n: nat :| n < Buckets(c) && v == FakeValue(w.lib, BaseColumn(types, c), n, false);
      BucketDrawn(n, Buckets(c));
      ShownByTwo(w, types, table, column, c, ord, n, 0);
    }
  }

  lemma ShownByTwo(w: World, types: Types, table: string, column: string, c: Column, ord: nat, x: nat, y: nat)
    requires !c.unique && !NullAt(c, ord) && !DrawsLabels(types, c) && x < TWO_64 && y < TWO_64
    ensures Shown(w, types, table, column, c, ord, SharedDrawn(w.lib, types, c, x, y))
  {
    SharedIsDrawn(w.(draws := Two(x, y)), types, table, column, c, ord);
    assert Words(Two(x, y));
  }

  lemma HistogramAt(bounds: seq<Value>, x: nat, y: nat) returns (b: nat, sampled: Sampled)
    requires |bounds| >= 2
    ensures b + 1 < |bounds| && sampled == SampleHistogram(bounds, x, y)
    ensures var l, h := ToFloat(bounds[b]), ToFloat(bounds[b + 1]);
            sampled == if l.Some? && h.Some? then Sampled(Some(Int(PointOf(l.value, h.value, Fraction(y)))), 2)
                       else Sampled(None, 1)
  {
    b, sampled := Intn(x, |bounds| - 1), SampleHistogram(bounds, x, y);
  }

  lemma PointIsAt(lib: Library, types: Types, c: Column, x: nat, y: nat, b: nat, sampled: Sampled)
    requires SampledColumn(types, c) && b + 1 < |c.histogram.value| && y < TWO_64
    requires sampled == SampleHistogram(c.histogram.value, x, y)
    requires var l, h := ToFloat(c.histogram.value[b]), ToFloat(c.histogram.value[b + 1]);
             sampled == if l.Some? && h.Some? then Sampled(Some(Int(PointOf(l.value, h.value, Fraction(y)))), 2)
                           else Sampled(None, 1)
    ensures SampledAt(lib, types, c, SharedDrawn(lib, types, c, x, y), b)
  {
    var l, h := ToFloat(c.histogram.value[b]), ToFloat(c.histogram.value[b + 1]);
    if l.None? || h.None? {
      BucketShown(lib, types, c, Intn(y, Buckets(c)));
    }
  }

  lemma BucketShown(lib: Library, types: Types, c: Column, n: nat)
    requires n < Buckets(c)
    ensures Rendered(lib, types, c, Bucket(lib, types, c, n))
  {
  }

  lemma DrawnIsShown(lib: Library, types: Types, c: Column, x: nat, y: nat)
    requires y < TWO_64
    ensures var v := SharedDrawn(lib, types, c, x, y);
            if SampledColumn(types, c) && |c.histogram.value| >= 2 then
              exists b: nat :: b < |c.histogram.value| - 1 && SampledAt(lib, types, c, v, b)
            else Rendered(lib, types, c, v)
  {
    if SampledColumn(types, c) && |c.histogram.value| >= 2 {
      var b, sampled := HistogramAt(c.histogram.value, x, y);
      PointIsAt(lib, types, c, x, y, b, sampled);
    }
  }

  lemma SampleDraw(lib: Library, types: Types, c: Column, v: Value, b: nat) returns (y: nat)
    requires SampledColumn(types, c) && b + 1 < |c.histogram.value| && SampledAt(lib, types, c, v, b)
    requires Buckets(c) <= MAX_INT64
    ensures y < TWO_64 && SharedDrawn(lib, types, c, b, y) == v
  {
    var l, h := ToFloat(c.histogram.value[b]), ToFloat(c.histogram.value[b + 1]);
    if l.None? || h.None? {
      y :| y < Buckets(c) && v == FakeValue(lib, BaseColumn(types, c), y, false);
      BucketDrawn(y, Buckets(c));
    } else {
      y :| y < TWO_64 && v == Int(PointOf(l.value, h.value, Fraction(y)));
    }
    SampleDrawn(lib, types, c, b, y);
  }

  // ----- the theorem -----

  /** With these draws, the parent's cell is its children's key. */
  ghost predicate Matches(w: World, f: Fixture, to: string, held: Held, ord: nat, parentN: int, d: Draws)
    requires ParentIdColumn(f, to).Some? && HasCell(held, ord)
  {
    ParentCell(w.(draws := d), f, to, held, ord) == ParentIdValue(w.(draws := d), f, to, ord, parentN)
  }

  lemma AlwaysMeansDrawn(w: World, f: Fixture, to: string, held: Held, ord: nat, d: Draws)
    requires ParentIdColumn(f, to).Some? && HasCell(held, ord) && Words(d) && AlwaysHolds(w, f, to, held, ord)
    ensures ParentHolds(w.(draws := d), f, to, held, ord)
  {
    var c, dom, u := ParentIdColumn(f, to).value, ParentDomain(w, f, to), w.(draws := d);
    var x, y := d(ParentTable(to), ParentColumnName(to), ord, 0), d(ParentTable(to), ParentColumnName(to), ord, 1);
    assert ParentDomain(u, f, to) == dom;
    if held.Own? && DrawnTexts(f.types, c, dom) == [] && !c.unique {
      SharedIsDrawn(u, f.types, ParentTable(to), ParentColumnName(to), c, ord);
      SharedEndsAlways(w.lib, f.types, c, dom, ParentUniqueValue(w, c, ord), x, y);
    }
  }

  lemma FailsWhenDrawn(w: World, f: Fixture, to: string, held: Held, ord: nat) returns (d: Draws)
    requires ParentIdColumn(f, to).Some? && HasCell(held, ord) && Sized(w, f, to) && !AlwaysHolds(w, f, to, held, ord)
    ensures Words(d) && !ParentHolds(w.(draws := d), f, to, held, ord)
  {
    var c, dom := ParentIdColumn(f, to).value, ParentDomain(w, f, to);
    var key, texts := ParentUniqueValue(w, c, ord), DrawnTexts(f.types, c, dom);
    var x: nat, y: nat := 0, 0;
    if held.Borrowed? || OrdinalsOwn(w, f, to, held) || NullAt(c, ord) {
    } else if texts != [] {
      var v :| v in texts && key != Text(v);
      x :| x < |texts| && texts[x] == v;
    } else {
      x, y := SharedEndsFails(w.lib, f.types, c, dom, key);
    }
    d := Two(x, y);
    TwoFails(w, f, to, held, ord, x, y);
  }

  /** Drawing x and then y, the parent's cell misses the key. */
  ghost predicate Misses(w: World, f: Fixture, to: string, held: Held, ord: nat, x: nat, y: nat)
    requires ParentIdColumn(f, to).Some? && HasCell(held, ord)
  {
    var c, dom := ParentIdColumn(f, to).value, ParentDomain(w, f, to);
    var key, texts := ParentUniqueValue(w, c, ord), DrawnTexts(f.types, c, dom);
    if held.Borrowed? || OrdinalsOwn(w, f, to, held) then !ParentHolds(w, f, to, held, ord)
    else if NullAt(c, ord) then true
    else if texts != [] then x < |texts| && key != Text(texts[x])
    else !EndsAs(dom, SharedDrawn(w.lib, f.types, c, x, y), key)
  }

  lemma TwoFails(w: World, f: Fixture, to: string, held: Held, ord: nat, x: nat, y: nat)
    requires ParentIdColumn(f, to).Some? && HasCell(held, ord) && Misses(w, f, to, held, ord, x, y)
    ensures !ParentHolds(w.(draws := Two(x, y)), f, to, held, ord)
  {
    var c, dom, u := ParentIdColumn(f, to).value, ParentDomain(w, f, to), w.(draws := Two(x, y));
    var texts := DrawnTexts(f.types, c, dom);
    assert ParentDomain(u, f, to) == dom;
    if held.Own? && x < |texts| {
      BucketDrawn(x, |texts|);
    } else if held.Own? && !c.unique {
      SharedIsDrawn(u, f.types, ParentTable(to), ParentColumnName(to), c, ord);
    }
  }

  /** Whatever 64-bit words are drawn, the cell a parent generates is the key its children
      carry, if and only if AlwaysHolds: a condition on the fixture, and in a borrowed column on
      what its rows are assigned to. */
  lemma KeyAlwaysMatchesIff(w: World, f: Fixture, to: string, held: Held, ord: nat, parentN: int)
    requires ParentIdColumn(f, to).Some? && HasCell(held, ord) && Sized(w, f, to) && ord < parentN
    ensures (forall d: Draws | Words(d) :: Matches(w, f, to, held, ord, parentN, d))
            <==> AlwaysHolds(w, f, to, held, ord)
  {
    if AlwaysHolds(w, f, to, held, ord) {
      forall d: Draws | Words(d)
        ensures Matches(w, f, to, held, ord, parentN, d)
      {
        AlwaysMeansDrawn(w, f, to, held, ord, d);
        ChildKeyMatchesIff(w.(draws := d), f, to, held, ord, parentN);
      }
    } else {
      var d := FailsWhenDrawn(w, f, to, held, ord);
      ChildKeyMatchesIff(w.(draws := d), f, to, held, ord, parentN);
      assert !Matches(w, f, to, held, ord, parentN, d);
    }
  }

  /** The parents that a reference assigns its rows to have cells. */
  predicate Reached(held: Held, fk: seq<int>, parentN: int) {
    forall o: nat | o < |fk| :: fk[o] >= 0 && (fk[o] < parentN ==> HasCell(held, fk[o]))
  }

  /** Every row of a reference that is assigned to a parent matches that parent's cell,
      whatever is drawn, if and only if every assigned parent always holds its key. */
  lemma ReferenceAlwaysMatchesIff(w: World, f: Fixture, to: string, held: Held, fk: seq<int>, parentN: int)
    requires ParentIdColumn(f, to).Some? && Sized(w, f, to) && Reached(held, fk, parentN)
    ensures (forall d: Draws, o: nat | Words(d) && o < |fk| && fk[o] < parentN ::
               Matches(w, f, to, held, fk[o], parentN, d))
            <==> forall o: nat | o < |fk| && fk[o] < parentN :: AlwaysHolds(w, f, to, held, fk[o])
  {
    forall o: nat | o < |fk| && fk[o] < parentN
      ensures (forall d: Draws | Words(d) :: Matches(w, f, to, held, fk[o], parentN, d))
              <==> AlwaysHolds(w, f, to, held, fk[o])
    {
      KeyAlwaysMatchesIff(w, f, to, held, fk[o], parentN);
    }
  }

  /** An orphan of a parent column drawn from texts matches no parent, whatever is drawn, exactly
      when its key is none of the texts, or every parent is NULL. */
  lemma DrawnOrphanNeverIff(w: World, f: Fixture, to: string, ord: nat, parentN: int)
    requires ParentIdColumn(f, to).Some? && Sized(w, f, to) && 1 <= parentN <= ord <= MAX_INT64
    requires DrawnTexts(f.types, ParentIdColumn(f, to).value, ParentDomain(w, f, to)) != []
    ensures O.HasCells(Own, parentN)
    ensures var c := ParentIdColumn(f, to).value;
            (forall d: Draws | Words(d) :: !O.Resolves(w.(draws := d), f, to, Own, ord, parentN))
            <==> NullAt(c, 0)
                 || forall v :: v in DrawnTexts(f.types, c, ParentDomain(w, f, to)) ==> KeyOf(w, f, to, ord) != Text(v)
  {
    var c, dom := ParentIdColumn(f, to).value, ParentDomain(w, f, to);
    var key, texts := KeyOf(w, f, to, ord), DrawnTexts(f.types, c, dom);
    if NullAt(c, 0) || forall v :: v in texts ==> key != Text(v) {
      forall d: Draws | Words(d)
        ensures !O.Resolves(w.(draws := d), f, to, Own, ord, parentN)
      {
        O.OrphanMeetsIff(w.(draws := d), f, to, Own, ord, parentN);
        forall p: nat | p < parentN
          ensures !CellIs(w.(draws := d), f, to, Own, p, key)
        {
          O.NullFromStart(c, p);
          TextsMiss(w, f, to, p, key, d);
        }
      }
    } else {
      var v :| v in texts && key == Text(v);
      var x :| 0 <= x < |texts| && texts[x] == v;
      TextMet(w, f, to, ord, parentN, x);
    }
  }

  lemma TextsMiss(w: World, f: Fixture, to: string, p: nat, key: Value, d: Draws)
    requires ParentIdColumn(f, to).Some?
    requires DrawnTexts(f.types, ParentIdColumn(f, to).value, ParentDomain(w, f, to)) != []
    requires NullAt(ParentIdColumn(f, to).value, p)
             || forall v :: v in DrawnTexts(f.types, ParentIdColumn(f, to).value, ParentDomain(w, f, to)) ==>
                              key != Text(v)
    ensures !CellIs(w.(draws := d), f, to, Own, p, key)
  {
    var c, dom := ParentIdColumn(f, to).value, ParentDomain(w, f, to);
    var texts := DrawnTexts(f.types, c, dom);
    assert ParentDomain(w.(draws := d), f, to) == dom;
    assert texts[Intn(d(ParentTable(to), ParentColumnName(to), p, 0), |texts|)] in texts;
  }

  lemma TextMet(w: World, f: Fixture, to: string, ord: nat, parentN: int, x: nat)
    requires ParentIdColumn(f, to).Some? && Sized(w, f, to) && 1 <= parentN <= ord <= MAX_INT64
    requires !NullAt(ParentIdColumn(f, to).value, 0)
    requires var texts := DrawnTexts(f.types, ParentIdColumn(f, to).value, ParentDomain(w, f, to));
             x < |texts| && KeyOf(w, f, to, ord) == Text(texts[x])
    ensures Words(Two(x, 0)) && O.HasCells(Own, parentN)
    ensures O.Resolves(w.(draws := Two(x, 0)), f, to, Own, ord, parentN)
  {
    var u := w.(draws := Two(x, 0));
    var texts := DrawnTexts(f.types, ParentIdColumn(f, to).value, ParentDomain(w, f, to));
    assert ParentDomain(u, f, to) == ParentDomain(w, f, to);
    BucketDrawn(x, |texts|);
    assert CellIs(u, f, to, Own, 0, KeyOf(u, f, to, ord));
    O.OrphanMeetsIff(u, f, to, Own, ord, parentN);
  }

  // ----- the buckets of a number column -----

  /** What a bucket of a number column yields: it wraps inside the range, if there is one, and
      a range of more than MaxInt64 integers yields its least. */
  function SharedNumber(c: Column, b: nat): int {
    if NumericBounds(c).None? then b
    else
      var (lo, hi) := NumericBounds(c).value;
      if hi - lo >= MAX_INT64 then lo else lo + b % (hi - lo + 1)
  }

  lemma SharedNumberIs(c: Column, b: nat)
    requires NumericBounds(c).Some? ==> Int64Bounds(c)
    ensures NumericInRange(c, b, false) == SharedNumber(c, b)
  {
    if NumericBounds(c).Some? && NumericBounds(c).value.1 - NumericBounds(c).value.0 < MAX_INT64 {
      WrapsInside(c, b);
    }
  }

  lemma SharedIgnoresType(c: Column, typ: string, n: nat)
    ensures NumericInRange(c.(typ := typ), n, false) == NumericInRange(c, n, false)
  {
  }

  /** Without bounds of its own, no bucket yields the key of a row past the buckets. */
  lemma LateKeyMissed(c: Column, b: nat, ord: nat)
    requires NumericBounds(c).Some? ==> Int64Bounds(c)
    requires b < ord && (NumericBounds(c).Some? ==> NumericBounds(c).value.0 + ord <= MAX_INT64)
    ensures SharedNumber(c, b) != NumericInRange(c, ord, true)
  {
    if NumericBounds(c).Some? {
      CountsUpFrom(c, ord);
      var (lo, hi) := NumericBounds(c).value;
      if hi - lo < MAX_INT64 {
        RemainderAtMost(b, hi - lo + 1);
      }
    }
  }

  /** The least and the greatest number the buckets of a column yield. */
  function LeastBucket(c: Column): int {
    if NumericBounds(c).Some? then NumericBounds(c).value.0 else 0
  }

  function GreatestBucket(c: Column): int {
    if NumericBounds(c).None? then Buckets(c) - 1
    else
      var (lo, hi) := NumericBounds(c).value;
      if hi - lo >= MAX_INT64 then lo else if Buckets(c) <= hi - lo then lo + Buckets(c) - 1 else hi
  }

  lemma NumberBucket(lib: Library, types: Types, c: Column, b: nat)
    requires c.format == NoFormat && Categorize(ResolveType(types, c.typ)).Numeric? && b < Buckets(c)
    requires NumericBounds(c).Some? ==> Int64Bounds(c)
    ensures var v := Bucket(lib, types, c, b);
            v == Int(NumericInRange(c, b, false)) && LeastBucket(c) <= v.i <= GreatestBucket(c)
    ensures b == 0 ==> NumericInRange(c, b, false) == LeastBucket(c)
  {
    SharedIgnoresType(c, ResolveType(types, c.typ), b);
    if NumericBounds(c).Some? {
      RangeBucket(c, b);
    }
  }

  lemma RangeBucket(c: Column, b: nat)
    requires Int64Bounds(c) && b < Buckets(c)
    ensures LeastBucket(c) <= NumericInRange(c, b, false) <= GreatestBucket(c)
    ensures b == 0 ==> NumericInRange(c, b, false) == LeastBucket(c)
  {
    var span := NumericBounds(c).value.1 - NumericBounds(c).value.0 + 1;
    if span <= MAX_INT64 {
      WrapsInside(c, b);
      RemainderAtMost(b, span);
    }
  }

  lemma GreatestReached(c: Column) returns (b: nat)
    requires NumericBounds(c).Some? ==> Int64Bounds(c)
    ensures b < Buckets(c) && NumericInRange(c, b, false) == GreatestBucket(c)
  {
    if NumericBounds(c).None? {
      b := Buckets(c) - 1;
    } else {
      var (lo, hi) := NumericBounds(c).value;
      if hi - lo >= MAX_INT64 {
        b := 0;
      } else {
        b := if Buckets(c) <= hi - lo then Buckets(c) - 1 else hi - lo;
        WrapsInside(c, b);
        SmallModulus(b, hi - lo + 1);
      }
    }
  }

  /** For numbers it is enough that the least and the greatest number of the buckets, clamped
      into the CHECK bounds, are the key. */
  lemma NumberBucketsEndIff(lib: Library, types: Types, c: Column, dom: Domain, key: Value)
    requires c.format == NoFormat && Categorize(ResolveType(types, c.typ)).Numeric?
    requires NumericBounds(c).Some? ==> Int64Bounds(c)
    ensures BucketsEnd(lib, types, c, dom, key)
            <==> EndsAs(dom, Int(LeastBucket(c)), key) && EndsAs(dom, Int(GreatestBucket(c)), key)
  {
    var g := GreatestReached(c);
    NumberBucket(lib, types, c, 0);
    NumberBucket(lib, types, c, g);
    if BucketsEnd(lib, types, c, dom, key) {
      assert EndsAs(dom, Bucket(lib, types, c, 0), key) && EndsAs(dom, Bucket(lib, types, c, g), key);
    } else if EndsAs(dom, Int(LeastBucket(c)), key) && EndsAs(dom, Int(GreatestBucket(c)), key) {
      var b: nat :| b < Buckets(c) && !EndsAs(dom, Bucket(lib, types, c, b), key);
      NumberBucket(lib, types, c, b);
      BetweenEnds(dom, key, LeastBucket(c), GreatestBucket(c), Bucket(lib, types, c, b).i);
    }
  }

  /** A number column that is not unique: unhinted, drawn from no texts, its domain's base of a
      number type. */
  predicate SharedNumbers(w: World, f: Fixture, to: string)
    requires ParentIdColumn(f, to).Some?
  {
    var c := ParentIdColumn(f, to).value;
    && !c.unique && c.format == NoFormat && DrawnTexts(f.types, c, ParentDomain(w, f, to)) == []
    && Categorize(ResolveType(f.types, c.typ)).Numeric? && (NumericBounds(c).Some? ==> Int64Bounds(c))
  }

  /** The number such a column draws: a point between two readable histogram bounds, or what a
      bucket yields. */
  function NumberDrawn(c: Column, x: nat, y: nat): int {
    var sampled := if c.histogram.Some? then SampleHistogram(c.histogram.value, x, y) else Sampled(None, 0);
    if sampled.value.Some? && sampled.value.value.Int? then sampled.value.value.i
    else SharedNumber(c, Intn(if sampled.drawn == 0 then x else y, Buckets(c)))
  }

  lemma SharedNumberDrawn(lib: Library, types: Types, c: Column, x: nat, y: nat)
    requires c.format == NoFormat && Categorize(ResolveType(types, c.typ)).Numeric?
    requires NumericBounds(c).Some? ==> Int64Bounds(c)
    ensures SharedDrawn(lib, types, c, x, y) == Int(NumberDrawn(c, x, y))
  {
    var sampled := if c.histogram.Some? then SampleHistogram(c.histogram.value, x, y) else Sampled(None, 0);
    var b := Intn(if sampled.drawn == 0 then x else y, Buckets(c));
    SharedNumberIs(c, b);
    SharedIgnoresType(c, ResolveType(types, c.typ), b);
  }

  /** A number column that is not unique holds the key of ordinal ord exactly when that key is a
      number too, the one that was drawn, clamped into the CHECK bounds; without such bounds and
      without a histogram never from the number of buckets on. */
  lemma SharedNumberHoldsIff(w: World, f: Fixture, to: string, ord: nat, parentN: int)
    requires ParentIdColumn(f, to).Some? && ord < parentN && SharedNumbers(w, f, to)
    requires !NullAt(ParentIdColumn(f, to).value, ord)
    ensures var c, dom := ParentIdColumn(f, to).value, ParentDomain(w, f, to);
            var n := NumberDrawn(c, w.draws(ParentTable(to), ParentColumnName(to), ord, 0),
                                 w.draws(ParentTable(to), ParentColumnName(to), ord, 1));
            && (ParentCell(w, f, to, Own, ord) == ParentIdValue(w, f, to, ord, parentN)
                <==> IsNumber(c) && Trunc(ClampReal(n as real, dom.min, dom.max)) == NumericInRange(c, ord, true))
            && (dom == ANYTHING && c.histogram.None? && ord >= Buckets(c)
                && (NumericBounds(c).Some? ==> NumericBounds(c).value.0 + ord <= MAX_INT64) ==>
                  ParentCell(w, f, to, Own, ord) != ParentIdValue(w, f, to, ord, parentN))
  {
    var c, dom := ParentIdColumn(f, to).value, ParentDomain(w, f, to);
    var x := w.draws(ParentTable(to), ParentColumnName(to), ord, 0);
    var y := w.draws(ParentTable(to), ParentColumnName(to), ord, 1);
    ChildKeyMatchesIff(w, f, to, Own, ord, parentN);
    SharedIsDrawn(w, f.types, ParentTable(to), ParentColumnName(to), c, ord);
    SharedNumberDrawn(w.lib, f.types, c, x, y);
    if dom == ANYTHING && c.histogram.None? && ord >= Buckets(c)
       && (NumericBounds(c).Some? ==> NumericBounds(c).value.0 + ord <= MAX_INT64) {
      LateKeyMissed(c, Intn(x, Buckets(c)), ord);
      TruncOfInt(NumberDrawn(c, x, y));
    }
  }

  /** Clamped into the bounds and truncated, the least and the greatest number of the buckets
      are n. */
  predicate BucketsAt(c: Column, dom: Domain, n: int) {
    && Trunc(ClampReal(LeastBucket(c) as real, dom.min, dom.max)) == n
    && Trunc(ClampReal(GreatestBucket(c) as real, dom.min, dom.max)) == n
  }

  /** The same for the two ends of a histogram bucket, or for the buckets where its bounds
      cannot be read. */
  predicate SampleAt(c: Column, dom: Domain, n: int, b: nat)
    requires c.histogram.Some? && b + 1 < |c.histogram.value|
  {
    var l, h := ToFloat(c.histogram.value[b]), ToFloat(c.histogram.value[b + 1]);
    if l.None? || h.None? then BucketsAt(c, dom, n)
    else
      && Trunc(ClampReal(PointOf(l.value, h.value, Fraction(0)) as real, dom.min, dom.max)) == n
      && Trunc(ClampReal(PointOf(l.value, h.value, Fraction(LAST)) as real, dom.min, dom.max)) == n
  }

  predicate EndsAt(c: Column, dom: Domain, n: int) {
    if c.histogram.Some? && |c.histogram.value| >= 2 then
      forall b: nat :: b < |c.histogram.value| - 1 ==> SampleAt(c, dom, n, b)
    else BucketsAt(c, dom, n)
  }

  lemma SharedEndsAt(lib: Library, types: Types, c: Column, dom: Domain, n: int)
    requires c.format == NoFormat && Categorize(ResolveType(types, c.typ)).Numeric?
    requires NumericBounds(c).Some? ==> Int64Bounds(c)
    ensures SharedEnds(lib, types, c, dom, Int(n)) <==> EndsAt(c, dom, n)
  {
    NumberBucketsEndIff(lib, types, c, dom, Int(n));
    if c.histogram.Some? && |c.histogram.value| >= 2 {
      forall b: nat | b < |c.histogram.value| - 1
        ensures SampleEnds(lib, types, c, dom, Int(n), b) <==> SampleAt(c, dom, n, b)
      {
      }
    }
  }

  /** No number ends up as text. */
  lemma NumbersNeverText(lib: Library, types: Types, c: Column, dom: Domain, key: Value)
    requires c.format == NoFormat && Categorize(ResolveType(types, c.typ)).Numeric? && !key.Int?
    ensures !SharedEnds(lib, types, c, dom, key)
  {
    assert !EndsAs(dom, Bucket(lib, types, c, 0), key);
    if c.histogram.Some? && |c.histogram.value| >= 2 {
      assert !SampleEnds(lib, types, c, dom, key, 0);
    }
  }

  /** A number column that is not unique holds the key of a row whatever is drawn exactly when
      that key is a number too, and every end of its buckets or its histogram, clamped, is it. */
  lemma SharedNumberAlwaysIff(w: World, f: Fixture, to: string, ord: nat, parentN: int)
    requires ParentIdColumn(f, to).Some? && ord < parentN && SharedNumbers(w, f, to)
    requires !NullAt(ParentIdColumn(f, to).value, ord) && Sized(w, f, to)
    ensures var c, dom := ParentIdColumn(f, to).value, ParentDomain(w, f, to);
            (forall d: Draws | Words(d) :: Matches(w, f, to, Own, ord, parentN, d))
            <==> IsNumber(c) && EndsAt(c, dom, NumericInRange(c, ord, true))
  {
    var c, dom := ParentIdColumn(f, to).value, ParentDomain(w, f, to);
    KeyAlwaysMatchesIff(w, f, to, Own, ord, parentN);
    if IsNumber(c) {
      SharedEndsAt(w.lib, f.types, c, dom, NumericInRange(c, ord, true));
    } else {
      NumbersNeverText(w.lib, f.types, c, dom, ParentUniqueValue(w, c, ord));
    }
  }
}
