/** What the values of one column keep of its recorded shape (internal/hydrate/engine.go). */
module Shapes {
  import opened Columns
  import opened Engine
  import opened Holders
  import opened Keys
  import opened Numbers
  import opened Prng
  import opened Rendering
  import T = Text
  import opened Values
  import opened Wrappers

  /** The type is an enum of these labels. */
  predicate EnumOf(types: Types, name: string, labels: seq<string>) {
    name in types && types[name].kind == "enum" && types[name].labels == labels
  }

  /** A cell of an enum column that is not NULL is one of the type's labels. */
  lemma EnumCellIsLabel(w: World, types: Types, table: string, column: string, c: Column, ord: nat,
                        labels: seq<string>)
    requires !NullAt(c, ord) && EnumOf(types, c.typ, labels) && labels != []
    ensures var v := GenerateValue(w, types, table, column, c, ord); v.Text? && v.s in labels
  {
  }

  /** And a cell of an array of the enum is a one-element array of a label. */
  lemma EnumArrayIsLabel(w: World, types: Types, table: string, column: string, c: Column, ord: nat,
                         name: string, labels: seq<string>)
    requires !NullAt(c, ord) && EnumOf(types, name, labels) && labels != []
    requires T.Trim(c.typ) == name + "[]" && !HasLabels(types, c.typ)
    ensures exists x :: x in labels
              && GenerateValue(w, types, table, column, c, ord) == Text("{\"" + x + "\"}")
  {
    var t := T.Trim(c.typ);
    assert t[|t| - 2..] == "[]" && t[..|t| - 2] == name;
    assert DrawnLabel(types, name, w.draws(table, column, ord, 0)) in labels;
  }

  // ----- what a recorded range says -----

  /** Over a range of integers recorded as such, a column that is not unique shows every one of
      them and no other, and a unique one counts up from the least. */
  lemma IntegerRangeShown(c: Column, l: int, h: int, n: nat)
    requires c.range == Some(Range(Int(l), Int(h))) && IsInt64(l) && IsInt64(h) && 0 <= h - l < MAX_INT64
    ensures l <= NumericInRange(c, n, false) <= h
    ensures l + n <= h ==> NumericInRange(c, n, false) == l + n == NumericInRange(c, n, true)
    ensures l + n <= MAX_INT64 ==> NumericInRange(c, n, true) == l + n
  {
    assert NumericBounds(c) == Some((l, h));
    NumberInRange(c, n);
    if l + n <= h {
      WrapsInside(c, n);
      SmallModulus(n, h - l + 1);
    }
  }

  /** A range of fractions is read as the integers its ends truncate to, and one without numbers at
      its ends, or with its ends exchanged, as none. */
  lemma OtherRangeRead(c: Column)
    requires c.range.Some?
    ensures var lo, hi := c.range.value.min, c.range.value.max;
            && (lo.Num? && hi.Num? && ToI64(lo.x) <= ToI64(hi.x) ==>
                  NumericBounds(c) == Some((ToI64(lo.x), ToI64(hi.x))))
            && (!Number(lo) || !Number(hi) ==> NumericBounds(c).None?)
            && (lo.Int? && hi.Int? && hi.i < lo.i ==> NumericBounds(c).None?)
    ensures NumericBounds(c).None? ==> forall n: nat, unique :: NumericInRange(c, n, unique) == n
  {
  }

  predicate Number(v: Value) {
    v.Int? || v.Num?
  }

  // ----- numbers -----

  /** A column that is not unique stays inside its range. */
  lemma NumberInRange(c: Column, n: nat)
    requires Int64Bounds(c)
    ensures NumericBounds(c).value.0 <= NumericInRange(c, n, false) <= NumericBounds(c).value.1
  {
    if NumericBounds(c).value.1 - NumericBounds(c).value.0 < MAX_INT64 {
      WrapsInside(c, n);
    } else {
      WideRange(c, n);
    }
  }

  /** The span of a range of more than MaxInt64 integers wraps to nothing. */
  lemma WideRange(c: Column, n: nat)
    requires Int64Bounds(c) && NumericBounds(c).value.1 - NumericBounds(c).value.0 >= MAX_INT64
    ensures NumericInRange(c, n, false) == NumericBounds(c).value.0
  {
  }

  /** A unique column leaves its range only when no injective assignment could stay: exactly
      from the number of integers in the range on. Inside, it equals the wrapping form, as
      long as the range holds no more than MaxInt64 integers. */
  lemma UniqueNumberInRangeIff(c: Column, n: nat)
    requires Int64Bounds(c) && n <= MAX_INT64
    ensures var (lo, hi) := NumericBounds(c).value;
            && (lo <= NumericInRange(c, n, true) <= hi <==> n < hi - lo + 1)
            && (n < hi - lo + 1 <= MAX_INT64 ==> NumericInRange(c, n, true) == NumericInRange(c, n, false))
  {
    var (lo, hi) := NumericBounds(c).value;
    UniqueWrapped(c, n);
    if hi - lo < MAX_INT64 {
      WrapsInside(c, n);
      if n < hi - lo + 1 {
        SmallModulus(n, hi - lo + 1);
      }
    }
  }

  lemma UniqueWrapped(c: Column, n: nat)
    requires Int64Bounds(c) && n <= MAX_INT64
    ensures var lo := NumericBounds(c).value.0;
            NumericInRange(c, n, true) == if lo + n <= MAX_INT64 then lo + n else lo + n - TWO_64
  {
  }

  /** A timestamp stays inside its range, when both ends can be read. */
  lemma TimeInRange(lib: Library, c: Column, n: nat)
    requires c.range.Some? && lib.toTime(c.range.value.min).Some? && lib.toTime(c.range.value.max).Some?
    requires lib.toTime(c.range.value.min).value <= lib.toTime(c.range.value.max).value
    ensures lib.toTime(c.range.value.min).value <= TemporalInRange(lib, c, n) <= lib.toTime(c.range.value.max).value
  {
  }

  /** Days from 1970 to 2000: thirty years, seven of them leap years. */
  const DAYS_TO_2000: int := 30 * 365 + 7

  /** Without a range the timestamps count up from the start of the year 2000 by the hour. */
  lemma HoursCountUp(lib: Library, c: Column, n: nat)
    requires c.range.None? && n * HOUR <= MAX_INT64
    ensures TemporalInRange(lib, c, n) == DAYS_TO_2000 * 24 * HOUR + n * HOUR
  {
  }

  /** Over a readable range they count up from its least by the nanosecond, and start over at its
      greatest. */
  lemma NanosecondsCountUp(lib: Library, c: Column, n: nat, lo: int, hi: int)
    requires c.range.Some? && lib.toTime(c.range.value.min) == Some(lo) && lib.toTime(c.range.value.max) == Some(hi)
    requires 0 < hi - lo <= MAX_INT64
    ensures n < hi - lo ==> TemporalInRange(lib, c, n) == lo + n
    ensures TemporalInRange(lib, c, hi - lo) == lo
  {
    assert (hi - lo) % (hi - lo) == 0;
    if n < hi - lo {
      SmallModulus(n, hi - lo);
    }
  }

  // ----- histograms -----

  lemma FractionBelowOne(draw: nat)
    requires draw < TWO_64
    ensures 0.0 <= Fraction(draw) < 1.0
  {
    assert draw / 2048 < TWO_53;
    ProperRatio((draw / 2048) as real, TWO_53 as real);
  }

  lemma ProperRatio(a: real, b: real)
    requires 0.0 <= a < b
    ensures 0.0 <= a / b < 1.0
  {
    var q := a / b;
    assert b * q == a;
    if q >= 1.0 {
      ProductMonotone(b, 1.0, q);
    }
  }

  /** A draw of 64 bits is taken as a fraction of 2^64, to within 2^-53. */
  lemma FractionOfWord(draw: nat)
    requires draw < TWO_64
    ensures Fraction(draw) * TWO_53 as real <= draw as real / 2048.0 < Fraction(draw) * TWO_53 as real + 1.0
  {
    var k := draw / 2048;
    assert Fraction(draw) * TWO_53 as real == k as real by { Recovered(k as real, TWO_53 as real); }
    assert 2048 * k <= draw < 2048 * k + 2048;
  }

  lemma Recovered(a: real, b: real)
    requires b > 0.0
    ensures a / b * b == a
  {
  }

  /** The point at a fraction divides the two bounds in that proportion, from the lesser on. */
  lemma PointDivides(a: real, b: real, f: real)
    ensures a <= b ==> Interpolated(a, b, f) - a == f * (b - a)
    ensures Interpolated(a, b, f) == Interpolated(b, a, f)
  {
  }

  /** A sampled value lies in the bucket that was drawn: between the conversions of two
      neighbouring bounds, in whichever order they stand. */
  lemma SampledInBucket(bounds: seq<Value>, first: nat, second: nat)
    requires SampleHistogram(bounds, first, second).value.Some? && second < TWO_64
    ensures exists b :: 0 <= b < |bounds| - 1 && ToFloat(bounds[b]).Some? && ToFloat(bounds[b + 1]).Some?
              && SampleHistogram(bounds, first, second).value.value.Int?
              && Encloses(ToFloat(bounds[b]).value, ToFloat(bounds[b + 1]).value,
                          SampleHistogram(bounds, first, second).value.value.i)
  {
    var b := Intn(first, |bounds| - 1);
    FractionBelowOne(second);
    InBucket(ToFloat(bounds[b]).value, ToFloat(bounds[b + 1]).value, Fraction(second));
  }

  lemma InBucket(a: real, b: real, f: real)
    requires 0.0 <= f < 1.0
    ensures Encloses(a, b, ToI64(Interpolated(a, b, f)))
  {
    var v := Interpolated(a, b, f);
    Between(a, b, f);
    if b < a {
      ToI64Monotone(b, v);
      ToI64Monotone(v, a);
    } else {
      ToI64Monotone(a, v);
      ToI64Monotone(v, b);
    }
  }

  lemma Between(a: real, b: real, f: real)
    requires 0.0 <= f < 1.0
    ensures b < a ==> b <= Interpolated(a, b, f) <= a
    ensures a <= b ==> a <= Interpolated(a, b, f) <= b
  {
    if b < a {
      AlongSpan(b, a - b, f);
    } else {
      AlongSpan(a, b - a, f);
    }
  }

  lemma AlongSpan(lo: real, span: real, f: real)
    requires 0.0 <= f < 1.0 && span >= 0.0
    ensures lo <= Along(lo, span, f) <= lo + span
  {
    ProductMonotone(span, 0.0, f);
    ProductMonotone(span, f, 1.0);
  }

  ghost predicate Encloses(a: real, b: real, i: int) {
    ToI64(a) <= i <= ToI64(b) || ToI64(b) <= i <= ToI64(a)
  }

  // ----- cardinality -----

  /** A column that is not unique, has no histogram and a known number of distinct values
      shows only the renderings of that many buckets. */
  lemma AtMostDistinctValues(w: World, types: Types, table: string, column: string, c: Column, ord: nat)
    requires !NullAt(c, ord) && !DrawsLabels(types, c) && !c.unique && c.histogram.None?
    requires c.distinct.Some? && c.distinct.value > 0
    ensures exists n: nat :: n < c.distinct.value && GenerateValue(w, types, table, column, c, ord)
              == FakeValue(w.lib, BaseColumn(types, c), n, false)
  {
    var n := Intn(w.draws(table, column, ord, 0), Buckets(c));
    assert GenerateValue(w, types, table, column, c, ord)
           == FakeValue(w.lib, BaseColumn(types, c), n, false);
  }
}
