/** internal/profile/columns.go and privacy.go: the value set gathered from a sample, and
    the gate that decides whether it is published. */
module ValueGate {
  import opened FiniteSets
  import opened Numbers
  import opened Order
  import opened Wrappers

  /** permissiveMaxDistinct and DefaultK. */
  const MAX_DISTINCT: int := 50
  const DEFAULT_K: int := 20

  const MILLION: int := 1_000_000

  // ----- counts through rounded proportions -----

  function Round6(f: real): real {
    Round(f * 1000000.0) as real / 1000000.0
  }

  /** The count the gate recovers from a stored frequency. */
  function Recovered(frequency: real, n: int): int {
    Round(frequency * n as real)
  }

  function Frequency(c: int, n: int): real
    requires n > 0
  {
    Round6(c as real / n as real)
  }

  /** What becomes of a count of c in a sample of n. */
  function Recount(c: int, n: int): int
    requires n > 0
  {
    Recovered(Frequency(c, n), n)
  }

  lemma ErrorScaled(e: real, n: real)
    requires -0.0000005 <= e <= 0.0000005 && 0.0 < n < 1000000.0
    ensures -0.5 < e * n < 0.5
  {
    if e >= 0.0 {
      assert e * n <= 0.0000005 * n;
    } else {
      assert (-e) * n <= 0.0000005 * n;
    }
  }

  lemma ErrorOfProduct(x: real, y: real, n: real)
    ensures (y - x) * n == y * n - x * n
  {
  }

  lemma Round6Near(x: real)
    ensures -0.0000005 <= Round6(x) - x <= 0.0000005
  {
  }

  lemma ProductNear(x: real, y: real, n: real, c: int)
    requires -0.0000005 <= y - x <= 0.0000005 && 0.0 < n < 1000000.0 && x * n == c as real
    ensures c as real - 0.5 < y * n < c as real + 0.5
  {
    ErrorScaled(y - x, n);
    ErrorOfProduct(x, y, n);
  }

  lemma QuotientTimes(c: real, n: real)
    requires n != 0.0
    ensures c / n * n == c
  {
  }

  lemma NearlyRecovered(x: real, m: real, c: int)
    requires 0 <= c && 0.0 < m < 1000000.0 && x * m == c as real
    ensures Round(Round6(x) * m) == c
  {
    Round6Near(x);
    ProductNear(x, Round6(x), m, c);
    RoundNearest(Round6(x) * m, c);
  }

  lemma MillionRecovered(x: real, c: int)
    requires 0 <= c && x * 1000000.0 == c as real
    ensures Round(Round6(x) * 1000000.0) == c
  {
    RoundNearest(c as real, c);
  }

  /** Up to a million samples, the recovered count is the true one. */
  lemma CountRecovered(c: int, n: int)
    requires 0 <= c <= n && 1 <= n <= MILLION
    ensures Recount(c, n) == c
  {
    var x := c as real / n as real;
    assert x * n as real == c as real by {
      QuotientTimes(c as real, n as real);
    }
    RecountOf(x, c, n);
  }

  lemma RecountOf(x: real, c: int, n: int)
    requires 0 <= c && 1 <= n <= MILLION && x * n as real == c as real
    ensures Recovered(Round6(x), n) == c
  {
    if n < MILLION {
      NearlyRecovered(x, n as real, c);
    } else {
      MillionRecovered(x, c);
    }
  }

  lemma {:induction false} DistinctElements(s: seq<int>)
    requires forall i, j :: 0 <= i < j < |s| ==> s[i] != s[j]
    ensures |Elements(s)| == |s|
  {
    if s == [] {
      assert Elements(s) == {};
    } else {
      var n := |s| - 1;
      DistinctElements(s[..n]);
      assert s == s[..n] + [s[n]];
      assert Elements(s) == Elements(s[..n]) + {s[n]};
    }
  }

  /** Among more than b numbers below b, two are equal. */
  lemma Pigeonhole(s: seq<int>, b: nat)
    requires |s| > b && forall i :: 0 <= i < |s| ==> 0 <= s[i] < b
    ensures exists i, j :: 0 <= i < j < |s| && s[i] == s[j]
  {
    if forall i, j :: 0 <= i < j < |s| ==> s[i] != s[j] {
      DistinctElements(s);
      SubsetSize(Elements(s), Interval(0, b - 1));
    }
  }

  /** The number of millionths a proportion rounds to. */
  function Millionths(c: int, n: int): int
    requires n > 0
  {
    Round(c as real / n as real * 1000000.0)
  }

  lemma MillionthsBound(c: int, n: int)
    requires 0 <= c <= n && n > 0
    ensures 0 <= Millionths(c, n) <= MILLION
  {
    var x := c as real / n as real;
    assert 0.0 <= x <= 1.0;
    RoundMonotone(x * 1000000.0, 1000000.0);
    RoundNearest(1000000.0, MILLION);
  }

  /** Every count of a sample is recovered exactly when the sample holds at most a
      million values: past that, two counts share a frequency. */
  lemma CountsRecoveredIff(n: int)
    requires n >= 1
    ensures (forall c :: 0 <= c <= n ==> Recount(c, n) == c) <==> n <= MILLION
  {
    if n <= MILLION {
      forall c | 0 <= c <= n
        ensures Recount(c, n) == c
      {
        CountRecovered(c, n);
      }
    } else {
      var s := seq(n + 1, (c: int) => Millionths(c, n));
      forall i | 0 <= i < |s|
        ensures 0 <= s[i] < MILLION + 1
      {
        MillionthsBound(i, n);
      }
      Pigeonhole(s, MILLION + 1);
      var i, j :| 0 <= i < j < |s| && s[i] == s[j];
      assert Frequency(i, n) == Frequency(j, n) && Recount(i, n) == Recount(j, n);
    }
  }

  /** A value seen nineteen times in two million passes for one seen as often as the
      default threshold asks. */
  lemma RareValueRecounted()
    ensures Recount(19, 2_000_000) == DEFAULT_K
  {
    var f := 19 as real / 2_000_000 as real;
    assert f * 1000000.0 == 9.5;
    assert Round(9.5) == 10;
    assert Round6(f) * 2_000_000 as real == 20.0;
    RoundNearest(20.0, 20);
  }

  // ----- valueSetFromSample -----

  datatype ValueSet = ValueSet(values: seq<string>, frequencies: seq<real>)

  function CountOf(samples: seq<string>, v: string): nat {
    multiset(samples)[v]
  }

  /** The distinct values in order, each with its rounded share of the sample. */
  ghost function ValueSetOf(samples: seq<string>): ValueSet {
    var values := Sorted(Elements(samples));
    if samples == [] || |Elements(samples)| > MAX_DISTINCT then ValueSet([], [])
    else
      ValueSet(values, seq(|values|, i requires 0 <= i < |values| => Frequency(CountOf(samples, values[i]), |samples|)))
  }

  /** How often each value occurs. */
  ghost predicate Counts(counts: map<string, nat>, samples: seq<string>) {
    && counts.Keys == Elements(samples)
    && forall v :: v in counts ==> counts[v] == CountOf(samples, v)
  }

  function Tally(counts: map<string, nat>, v: string): map<string, nat> {
    counts[v := (if v in counts then counts[v] else 0) + 1]
  }

  lemma Tallied(counts: map<string, nat>, s: seq<string>, v: string)
    requires Counts(counts, s)
    ensures Counts(Tally(counts, v), s + [v])
  {
    if v !in counts {
      NotCounted(s, v);
    }
    assert Elements(s + [v]) == Elements(s) + {v};
    assert multiset(s + [v]) == multiset(s) + multiset{v};
  }

  method ValueSetFromSample(samples: seq<string>) returns (r: ValueSet)
    ensures r == ValueSetOf(samples)
  {
    if |samples| == 0 {
      return ValueSet([], []);
    }
    var counts: map<string, nat> := map[];
    for i := 0 to |samples|
      invariant Counts(counts, samples[..i])
    {
      Tallied(counts, samples[..i], samples[i]);
      assert samples[..i + 1] == samples[..i] + [samples[i]];
      counts := Tally(counts, samples[i]);
    }
    assert samples[..|samples|] == samples;
    if |counts.Keys| > MAX_DISTINCT {
      return ValueSet([], []);
    }
    var values := Sorted(counts.Keys);
    var frequencies := Frequencies(samples, counts, values);
    r := ValueSet(values, frequencies);
  }

  method Frequencies(samples: seq<string>, counts: map<string, nat>, values: seq<string>) returns (fs: seq<real>)
    requires samples != [] && Counts(counts, samples) && Elements(values) == counts.Keys
    ensures fs == seq(|values|, i requires 0 <= i < |values| => Frequency(CountOf(samples, values[i]), |samples|))
  {
    fs := [];
    for i := 0 to |values|
      invariant |fs| == i
      invariant forall k :: 0 <= k < i ==> fs[k] == Frequency(CountOf(samples, values[k]), |samples|)
    {
      assert values[i] in Elements(values);
      fs := fs + [Frequency(counts[values[i]], |samples|)];
    }
  }

  lemma NotCounted(s: seq<string>, v: string)
    requires v !in Elements(s)
    ensures CountOf(s, v) == 0
  {
    assert v !in s;
  }

  // ----- permissiveValuesAllowed -----

  predicate Allowed(s: ValueSet, distinct: Option<int>, sampleN: int, k: int) {
    && s.values != [] && distinct.Some? && distinct.value <= MAX_DISTINCT
    && |s.frequencies| == |s.values| && sampleN > 0
    && forall i :: 0 <= i < |s.frequencies| ==> Recovered(s.frequencies[i], sampleN) >= k
  }

  lemma CountBound(samples: seq<string>, v: string)
    ensures CountOf(samples, v) <= |samples|
  {
    assert multiset(samples)[v] <= |multiset(samples)|;
  }

  /** For a sample of at most a million values: a value set is published exactly when
      there are at most fifty values and each occurs at least k times. */
  lemma PublishedIffCommon(samples: seq<string>, distinct: int, k: int)
    requires |samples| <= MILLION && distinct <= MAX_DISTINCT
    ensures Allowed(ValueSetOf(samples), Some(distinct), |samples|, k)
            <==> samples != [] && |Elements(samples)| <= MAX_DISTINCT
                 && forall v :: v in samples ==> CountOf(samples, v) >= k
  {
    var s := ValueSetOf(samples);
    if samples != [] && |Elements(samples)| <= MAX_DISTINCT {
      assert Elements(s.values) == Elements(samples);
      assert samples[0] in Elements(samples);
      forall i | 0 <= i < |s.values|
        ensures Recovered(s.frequencies[i], |samples|) == CountOf(samples, s.values[i])
      {
        CountBound(samples, s.values[i]);
        CountRecovered(CountOf(samples, s.values[i]), |samples|);
      }
      forall v
        ensures v in samples <==> v in s.values
      {
        assert v in samples <==> v in Elements(samples);
        assert v in s.values <==> v in Elements(s.values);
      }
    }
  }

  // ----- applyColumnPrivacy -----

  datatype Level = Strict | Standard | Permissive

  /** The facts of a column that privacy may withhold; a fact is its text. */
  datatype Facts = Facts(
    range: Option<string>, histogram: Option<string>, length: Option<string>, shape: Option<string>,
    valueSet: ValueSet, format: string)

  const NO_SET: ValueSet := ValueSet([], [])

  function Overridden(f: Facts, redact: set<string>): Facts {
    if "all" in redact then Facts(None, None, None, None, NO_SET, "opaque")
    else
      Facts(if "range" in redact then None else f.range,
            if "histogram" in redact then None else f.histogram,
            if "length" in redact then None else f.length,
            f.shape,
            if "values" in redact then NO_SET
            else if "frequencies" in redact then f.valueSet.(frequencies := []) else f.valueSet,
            f.format)
  }

  function Levelled(f: Facts, distinct: Option<int>, sampleN: int, level: Level, k: int): Facts {
    match level
    case Strict => f.(range := None, histogram := None, valueSet := NO_SET)
    case Standard => f.(valueSet := NO_SET)
    case Permissive => if Allowed(f.valueSet, distinct, sampleN, k) then f else f.(valueSet := NO_SET)
  }

  function Applied(f: Facts, redact: set<string>, distinct: Option<int>, sampleN: int, level: Level, k: int): Facts {
    Levelled(Overridden(f, redact), distinct, sampleN, level, k)
  }

  class Column {
    var range: Option<string>
    var histogram: Option<string>
    var length: Option<string>
    var shape: Option<string>
    var values: seq<string>
    var frequencies: seq<real>
    var format: string
    var distinct: Option<int>
    var sampleN: int
    const redact: set<string>

    constructor (redact: set<string>)
      ensures this.redact == redact
    {
      this.redact := redact;
      range, histogram, length, shape, distinct := None, None, None, None, None;
      values, frequencies, format, sampleN := [], [], "", 0;
    }

    function Published(): Facts
      reads this
    {
      Facts(range, histogram, length, shape, ValueSet(values, frequencies), format)
    }

    method PermissiveValuesAllowed(k: int) returns (ok: bool)
      ensures ok == Allowed(ValueSet(values, frequencies), distinct, sampleN, k)
    {
      if |values| == 0 || distinct.None? || distinct.value > MAX_DISTINCT || |frequencies| != |values| || sampleN <= 0 {
        return false;
      }
      for i := 0 to |frequencies|
        invariant forall j :: 0 <= j < i ==> Recovered(frequencies[j], sampleN) >= k
      {
        if Recovered(frequencies[i], sampleN) < k {
          return false;
        }
      }
      ok := true;
    }

    /** The column's own redact list, before any level. */
    method ApplyRedact()
      modifies this
      ensures Published() == Overridden(old(Published()), redact)
      ensures distinct == old(distinct) && sampleN == old(sampleN)
    {
      if "all" in redact {
        range, histogram, values, frequencies, length, shape := None, None, [], [], None, None;
        format := "opaque";
      } else {
        if "range" in redact { range := None; }
        if "histogram" in redact { histogram := None; }
        if "values" in redact { values, frequencies := [], []; }
        if "frequencies" in redact { frequencies := []; }
        if "length" in redact { length := None; }
      }
    }

    /** applyColumnPrivacy. */
    method ApplyColumnPrivacy(level: Level, k: int)
      modifies this
      ensures Published() == Applied(old(Published()), redact, distinct, sampleN, level, k)
      ensures distinct == old(distinct) && sampleN == old(sampleN)
    {
      ApplyRedact();
      match level {
        case Strict => range, histogram, values, frequencies := None, None, [], [];
        case Standard => values, frequencies := [], [];
        case Permissive =>
          var ok := PermissiveValuesAllowed(k);
          if !ok {
            values, frequencies := [], [];
          }
      }
    }
  }

  function Rank(level: Level): nat {
    match level
    case Strict => 0
    case Standard => 1
    case Permissive => 2
  }

  /** g tells nothing that f does not. */
  ghost predicate TellsNoMore(g: Facts, f: Facts) {
    && (g.range.None? || g.range == f.range) && (g.histogram.None? || g.histogram == f.histogram)
    && (g.length.None? || g.length == f.length) && (g.shape.None? || g.shape == f.shape)
    && (g.valueSet == NO_SET || g.valueSet == f.valueSet) && (g.format == "opaque" || g.format == f.format)
  }

  /** A stricter level never publishes more, and no level publishes a fact the column
      did not hold; applying a level twice changes nothing more. */
  lemma StricterTellsNoMore(f: Facts, redact: set<string>, distinct: Option<int>, sampleN: int, a: Level, b: Level,
                            k: int)
    requires Rank(a) <= Rank(b)
    ensures TellsNoMore(Applied(f, redact, distinct, sampleN, a, k), Applied(f, redact, distinct, sampleN, b, k))
    ensures TellsNoMore(Applied(f, redact, distinct, sampleN, a, k), f)
    ensures Applied(Applied(f, redact, distinct, sampleN, a, k), redact, distinct, sampleN, a, k)
            == Applied(f, redact, distinct, sampleN, a, k)
  {
    assert Overridden(Overridden(f, redact), redact) == Overridden(f, redact);
  }

  /** What each level withholds, and that it keeps the rest: strict the range, the histogram and
      the values, standard the values, and permissive the values that are not safe. */
  lemma LevelsWithhold(f: Facts, distinct: Option<int>, sampleN: int, k: int)
    ensures var g := Applied(f, {}, distinct, sampleN, Strict, k);
            && g.range.None? && g.histogram.None? && g.valueSet == NO_SET
            && g.length == f.length && g.shape == f.shape && g.format == f.format
    ensures Applied(f, {}, distinct, sampleN, Standard, k) == f.(valueSet := NO_SET)
    ensures Applied(f, {}, distinct, sampleN, Permissive, k)
            == if Allowed(f.valueSet, distinct, sampleN, k) then f else f.(valueSet := NO_SET)
  {
  }

  /** What a column's own list withholds at any level: a fact it names is never published, and
      "all" leaves nothing but an opaque format. */
  lemma RedactionWithholds(f: Facts, redact: set<string>, distinct: Option<int>, sampleN: int, level: Level, k: int)
    ensures var g := Applied(f, redact, distinct, sampleN, level, k);
            && ("range" in redact ==> g.range.None?) && ("histogram" in redact ==> g.histogram.None?)
            && ("length" in redact ==> g.length.None?) && ("values" in redact ==> g.valueSet == NO_SET)
            && ("frequencies" in redact ==> g.valueSet.frequencies == [])
            && ("all" in redact ==> g == Facts(None, None, None, None, NO_SET, "opaque"))
    ensures redact !! {"all", "range", "histogram", "length", "values", "frequencies"} ==>
              Applied(f, redact, distinct, sampleN, level, k) == Applied(f, {}, distinct, sampleN, level, k)
  {
    var names := {"all", "range", "histogram", "length", "values", "frequencies"};
    assert "all" in names && "range" in names && "histogram" in names && "length" in names && "values" in names
           && "frequencies" in names;
  }
}
