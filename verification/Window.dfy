/** internal/findings/rsbackfill.go: the window a WHERE clause confines a statement to,
    and the finding it silences. */
module Window {
  import opened Digits
  import opened FiniteSets
  import opened Numbers
  import opened Text
  import opened WindowText
  import opened Wrappers

  /** backfillThreshold. */
  const THRESHOLD: int := 100_000

  // ----- reading one conjunct -----

  predicate ContainsAny(s: string, cs: string) {
    exists i :: 0 <= i < |s| && s[i] in cs
  }

  /** normalizeColumn. */
  function NormalizeColumn(raw: string): Option<string> {
    var c := Trim(raw);
    var dot := LastIndexOf(c, '.');
    var d := TrimChar(Trim(if dot.Some? then c[dot.value + 1..] else c), '"');
    if d == "" || ContainsAny(d, " (),") then None else Some(d)
  }

  datatype Comparison = Compared(col: string, op: string, val: string) | NotCompared | IndexOutOfRange

  /** The scan for one operator; None goes on to the next. The single-character forms
      look at a neighbour, which may lie past the end of the text. */
  function TryOperator(conj: string, op: string): Option<Comparison>
    requires op == ">=" || op == "<=" || op == ">" || op == "<"
  {
    var at := Index(conj, op);
    if at.None? || at.value == 0 then None
    else
      var i := at.value;
      if |op| == 1 && i + 1 == |conj| then Some(IndexOutOfRange)
      else if op == ">" && (conj[i + 1] == '=' || conj[i - 1] == '<') then None
      else if op == "<" && (conj[i + 1] == '=' || conj[i + 1] == '>') then None
      else Some(Compared(Trim(conj[..i]), op, Trim(conj[i + |op|..])))
  }

  /** comparison: the four operators in the source's order. */
  function Compare(conj: string): Comparison {
    var ge, le := TryOperator(conj, ">="), TryOperator(conj, "<=");
    var gt, lt := TryOperator(conj, ">"), TryOperator(conj, "<");
    if ge.Some? then ge.value else if le.Some? then le.value
    else if gt.Some? then gt.value else if lt.Some? then lt.value else NotCompared
  }

  /** literalInt. */
  function LiteralInt(v: string): (r: Option<int>)
    ensures r.Some? ==> IsInt64(r.value)
  {
    var t := Trim(v);
    var cast := Index(t, "::");
    ParseInt(TrimChar(if cast.Some? && cast.value > 0 then Trim(t[..cast.value]) else t, '\''))
  }

  datatype Limit = Limit(text: string, open: bool)

  /** What a conjunct tells boundedRange; Mentions makes an entry and sets no limit. */
  datatype Reading =
    | Inside(col: string, low: string, high: string)
    | AtLeast(col: string, limit: Limit)
    | AtMost(col: string, limit: Limit)
    | Mentions(col: string)
    | Silent
    | Fault

  function ReadComparison(columns: set<string>, c: Comparison): Reading {
    match c
    case NotCompared => Silent
    case IndexOutOfRange => Fault
    case Compared(raw, op, val) =>
      var col := NormalizeColumn(raw);
      if col.None? || col.value !in columns then Silent
      else if op == ">" || op == ">=" then AtLeast(col.value, Limit(val, op == ">"))
      else AtMost(col.value, Limit(val, op == "<"))
  }

  /** What stands before and after BETWEEN. */
  function ReadBetween(columns: set<string>, raw: string, rest: string): Reading {
    var col := NormalizeColumn(raw);
    if col.None? || col.value !in columns then Silent
    else
      var k := Index(Upper(rest), " AND ");
      if k.None? then Mentions(col.value)
      else Inside(col.value, Trim(rest[..k.value]), Trim(rest[k.value + 5..]))
  }

  function ReadConjunct(columns: set<string>, conj: string): Reading {
    var j := Index(Upper(conj), BETWEEN);
    if j.Some? && j.value > 0 then ReadBetween(columns, conj[..j.value], conj[j.value + 9..])
    else ReadComparison(columns, Compare(conj))
  }

  // ----- the bounds map -----

  datatype Bound = Bound(lo: Option<Limit>, hi: Option<Limit>)

  type Bounds = map<string, Bound>

  function Entry(bounds: Bounds, col: string): Bound {
    if col in bounds then bounds[col] else Bound(None, None)
  }

  function Note(bounds: Bounds, r: Reading): Bounds {
    match r
    case Inside(col, low, high) => bounds[col := Bound(Some(Limit(low, false)), Some(Limit(high, false)))]
    case AtLeast(col, limit) => bounds[col := Entry(bounds, col).(lo := Some(limit))]
    case AtMost(col, limit) => bounds[col := Entry(bounds, col).(hi := Some(limit))]
    case Mentions(col) => bounds[col := Entry(bounds, col)]
    case _ => bounds
  }

  /** The readings of the conjuncts in turn, None once one of them faults. */
  function Gather(columns: set<string>, conjs: seq<string>, bounds: Bounds): Option<Bounds> {
    if conjs == [] then Some(bounds)
    else
      var r := ReadConjunct(columns, conjs[0]);
      if r.Fault? then None else Gather(columns, conjs[1..], Note(bounds, r))
  }

  predicate Full(b: Bound) {
    b.lo.Some? && b.hi.Some?
  }

  datatype Verdict = Unbounded | Unknown | Known(span: int) | Faulted

  /** The span the source computes in int64 arithmetic. */
  function Measure(b: Bound): Verdict
    requires Full(b)
  {
    var lo, hi := LiteralInt(b.lo.value.text), LiteralInt(b.hi.value.text);
    if lo.None? || hi.None? then Unknown
    else
      var l := if b.lo.value.open then Wrap(lo.value + 1) else lo.value;
      var h := if b.hi.value.open then Wrap(hi.value - 1) else hi.value;
      Known(if h < l then 0 else Wrap(Wrap(h - l) + 1))
  }

  /** The condition after WHERE, without the semicolons around it. */
  function Condition(clean: string): Option<string> {
    var i := Index(Upper(clean), "WHERE");
    if i.None? then None else Some(Trim(TrimChar(Trim(clean[i.value + 5..]), ';')))
  }

  /** Where boundedRange stands after reading every conjunct. */
  function Gathered(columns: set<string>, cond: string): Option<Bounds> {
    Gather(columns, Split(cond), map[])
  }

  /** A result boundedRange may give: some full entry's, whichever the map yields first. */
  predicate Possible(bounds: Bounds, v: Verdict) {
    if exists col :: col in bounds && Full(bounds[col]) then
      exists col :: col in bounds && Full(bounds[col]) && v == Measure(bounds[col])
    else v == Unbounded
  }

  predicate Outcome(columns: set<string>, clean: string, v: Verdict) {
    var cond := Condition(clean);
    if cond.None? || Contains(Upper(cond.value), " OR ") then v == Unbounded
    else
      var bounds := Gathered(columns, cond.value);
      if bounds.None? then v == Faulted else Possible(bounds.value, v)
  }

  method BoundedRange(columns: set<string>, clean: string) returns (v: Verdict)
    ensures Outcome(columns, clean, v)
  {
    var c := Condition(clean);
    if c.None? || Contains(Upper(c.value), " OR ") {
      return Unbounded;
    }
    var conjs := SplitConjuncts(c.value);
    var bounds: Bounds := map[];
    var i := 0;
    while i < |conjs|
      invariant 0 <= i <= |conjs|
      invariant Gather(columns, conjs[i..], bounds) == Gathered(columns, c.value)
    {
      var r := ReadConjunct(columns, conjs[i]);
      assert conjs[i..][1..] == conjs[i + 1..];
      if r.Fault? {
        return Faulted;
      }
      bounds := Note(bounds, r);
      i := i + 1;
    }
    var todo := bounds.Keys;
    while todo != {}
      invariant todo <= bounds.Keys
      invariant forall col :: col in bounds && col !in todo ==> !Full(bounds[col])
      decreases |todo|
    {
      var col :| col in todo;
      if Full(bounds[col]) {
        return Measure(bounds[col]);
      }
      todo := todo - {col};
    }
    v := Unbounded;
  }

  // ----- when the source indexes past the end of a conjunct -----

  /** p stands in s, and not first of all at its start. */
  predicate Inner(s: string, p: string) {
    Index(s, p).Some? && Index(s, p).value > 0
  }

  /** The only p in s is its last character, behind some other text. */
  predicate Ends(s: string, p: string)
    requires |p| == 1
  {
    Inner(s, p) && Index(s, p).value == |s| - 1
  }

  /** The condition on the text of a conjunct: no BETWEEN and no ">=" or "<=" inside, and its
      first ">" is its end, or its first "<" is and no ">" stands inside. */
  predicate Overruns(conj: string) {
    && !Inner(Upper(conj), BETWEEN) && !Inner(conj, ">=") && !Inner(conj, "<=")
    && (Ends(conj, ">") || (Ends(conj, "<") && !Inner(conj, ">")))
  }

  lemma CompareOverrunsIff(conj: string)
    ensures Compare(conj).IndexOutOfRange?
            <==> !Inner(conj, ">=") && !Inner(conj, "<=")
                 && (Ends(conj, ">") || (Ends(conj, "<") && !Inner(conj, ">")))
  {
    if Inner(conj, ">") && !Ends(conj, ">") {
      GreaterSettled(conj, Index(conj, ">").value);
    }
    SingleCharacters(conj);
  }

  /** A ">" inside the text is an operator, or part of ">=" or "<>". */
  lemma GreaterSettled(conj: string, i: nat)
    requires Index(conj, ">") == Some(i) && 0 < i < |conj| - 1
    ensures conj[i + 1] == '=' ==> Inner(conj, ">=")
    ensures conj[i - 1] == '<' ==> !Ends(conj, "<")
    ensures conj[i + 1] != '=' && conj[i - 1] != '<'
            ==> TryOperator(conj, ">").Some? && TryOperator(conj, ">").value.Compared?
  {
    if conj[i + 1] == '=' {
      assert conj[i] == '>' by { AtChar(conj, i, ">", 0); }
      assert conj[i..i + 2] == ">=";
      FirstNotAfter(conj, ">=", i);
      assert conj[0..1] == [conj[0]] && conj[0] != '>';
      if Index(conj, ">=") == Some(0) {
        AtChar(conj, 0, ">=", 0);
      }
    }
    if conj[i - 1] == '<' {
      assert conj[i - 1..i] == "<";
      FirstNotAfter(conj, "<", i - 1);
    }
  }

  lemma FirstNotAfter(s: string, p: string, i: nat)
    requires At(s, i, p)
    ensures Index(s, p).Some? && Index(s, p).value <= i
  {
    assert At(s, i, p);
  }

  lemma SingleCharacters(conj: string)
    ensures TryOperator(conj, ">").Some? && TryOperator(conj, ">").value.IndexOutOfRange? <==> Ends(conj, ">")
    ensures TryOperator(conj, "<").Some? && TryOperator(conj, "<").value.IndexOutOfRange? <==> Ends(conj, "<")
    ensures !Inner(conj, ">") ==> TryOperator(conj, ">").None?
  {
  }

  /** Reading a conjunct indexes past its end exactly on such text. */
  lemma ReadFaultsIff(columns: set<string>, conj: string)
    ensures ReadConjunct(columns, conj) == Fault <==> Overruns(conj)
  {
    CompareOverrunsIff(conj);
  }

  /** boundedRange panics exactly when some conjunct of the condition is such text. */
  lemma {:induction false} GatherFaultsIff(columns: set<string>, conjs: seq<string>, bounds: Bounds)
    ensures Gather(columns, conjs, bounds).None? <==> exists i :: 0 <= i < |conjs| && Overruns(conjs[i])
  {
    if conjs != [] {
      var r := ReadConjunct(columns, conjs[0]);
      ReadFaultsIff(columns, conjs[0]);
      if !r.Fault? {
        GatherFaultsIff(columns, conjs[1..], Note(bounds, r));
        assert forall i :: 1 <= i < |conjs| ==> conjs[i] == conjs[1..][i - 1];
        assert forall i :: 0 <= i < |conjs| - 1 ==> conjs[1..][i] == conjs[i + 1];
      }
    }
  }

  lemma OutcomeFaultsIff(columns: set<string>, clean: string)
    ensures Outcome(columns, clean, Faulted)
            <==> Condition(clean).Some? && !Contains(Upper(Condition(clean).value), " OR ")
                 && exists i :: 0 <= i < |Split(Condition(clean).value)| && Overruns(Split(Condition(clean).value)[i])
  {
    if Condition(clean).Some? {
      GatherFaultsIff(columns, Split(Condition(clean).value), map[]);
    }
  }

  /** backfillFinding returns nothing on the strength of the window alone. */
  predicate Silenced(v: Verdict) {
    v == Unknown || (v.Known? && v.span < THRESHOLD)
  }

  // ----- what a window of a given size does -----

  /** How many integers lie between the ends as int64 arithmetic has them, an open end stepped
      inside; None where an end is no literal. */
  function SizeOf(b: Bound): (r: Option<nat>)
    requires Full(b)
    ensures r.Some? ==> r.value <= TWO_64
  {
    var lo, hi := LiteralInt(b.lo.value.text), LiteralInt(b.hi.value.text);
    if lo.None? || hi.None? then None
    else
      var l := if b.lo.value.open then Wrap(lo.value + 1) else lo.value;
      var h := if b.hi.value.open then Wrap(hi.value - 1) else hi.value;
      Some(Max(0, h - l + 1))
  }

  /** The span is the size, wrapped. */
  lemma MeasureIsSize(b: Bound)
    requires Full(b)
    ensures Measure(b) == if SizeOf(b).None? then Unknown else Known(Wrap(SizeOf(b).value))
  {
  }

  /** The window is of unknown size, below the threshold, or too wide for an int64. */
  predicate SmallOrWide(b: Bound)
    requires Full(b)
  {
    SizeOf(b).None? || SizeOf(b).value < THRESHOLD || SizeOf(b).value > MAX_INT64
  }

  /** Exactly such windows silence the finding. */
  lemma SilencedIff(b: Bound)
    requires Full(b)
    ensures Silenced(Measure(b)) <==> SmallOrWide(b)
  {
    MeasureIsSize(b);
  }

  // ----- what depends on the order of the map -----

  /** The windows have one size, or none has a known one; nothing and all 2^64 integers count as
      one size. */
  predicate SameSize(a: Bound, b: Bound)
    requires Full(a) && Full(b)
  {
    SizesMeet(SizeOf(a), SizeOf(b))
  }

  predicate SizesMeet(m: Option<nat>, n: Option<nat>) {
    m == n || (m.Some? && n.Some? && m.value % TWO_64 == n.value % TWO_64)
  }

  lemma SizesMeetIff(m: Option<nat>, n: Option<nat>, u: Verdict, v: Verdict)
    requires m.Some? ==> m.value <= TWO_64
    requires n.Some? ==> n.value <= TWO_64
    requires u == if m.None? then Unknown else Known(Wrap(m.value))
    requires v == if n.None? then Unknown else Known(Wrap(n.value))
    ensures u == v <==> SizesMeet(m, n)
  {
  }

  lemma SameMeasureIff(a: Bound, b: Bound)
    requires Full(a) && Full(b)
    ensures Measure(a) == Measure(b) <==> SameSize(a, b)
  {
    MeasureIsSize(a);
    MeasureIsSize(b);
    SizesMeetIff(SizeOf(a), SizeOf(b), Measure(a), Measure(b));
  }

  /** All windows with both ends have one size. */
  ghost predicate OneSize(bounds: Bounds) {
    forall a, b :: a in bounds && b in bounds && Full(bounds[a]) && Full(bounds[b]) ==> SameSize(bounds[a], bounds[b])
  }

  /** The windows with both ends are small or wide all together or not at all. */
  ghost predicate OneSilence(bounds: Bounds) {
    forall a, b :: a in bounds && b in bounds && Full(bounds[a]) && Full(bounds[b]) && SmallOrWide(bounds[a]) ==>
                     SmallOrWide(bounds[b])
  }

  /** The conditions boundedRange reads to the end. */
  predicate ReadThrough(columns: set<string>, clean: string) {
    && Condition(clean).Some? && !Contains(Upper(Condition(clean).value), " OR ")
    && Gathered(columns, Condition(clean).value).Some?
  }

  /** For any statement, the result is the same whatever order the map yields exactly when all
      windows with both ends have one size; and so is whether the finding is silenced exactly
      when all of them are small or wide, or none is. */
  lemma OrderDecidesIff(columns: set<string>, clean: string)
    ensures (forall u, v :: Outcome(columns, clean, u) && Outcome(columns, clean, v) ==> u == v)
            <==> (ReadThrough(columns, clean) ==> OneSize(Gathered(columns, Condition(clean).value).value))
    ensures (forall u, v :: Outcome(columns, clean, u) && Outcome(columns, clean, v) && Silenced(u) ==> Silenced(v))
            <==> (ReadThrough(columns, clean) ==> OneSilence(Gathered(columns, Condition(clean).value).value))
  {
    if ReadThrough(columns, clean) {
      var bounds := Gathered(columns, Condition(clean).value).value;
      forall col | col in bounds && Full(bounds[col])
        ensures Outcome(columns, clean, Measure(bounds[col]))
        ensures Silenced(Measure(bounds[col])) <==> SmallOrWide(bounds[col])
      {
        SilencedIff(bounds[col]);
      }
      forall a, b | a in bounds && b in bounds && Full(bounds[a]) && Full(bounds[b])
        ensures Measure(bounds[a]) == Measure(bounds[b]) <==> SameSize(bounds[a], bounds[b])
      {
        SameMeasureIff(bounds[a], bounds[b]);
      }
    }
  }

  // ----- what the conjuncts say about a value -----

  /** v respects a limit, as far as the limit is a literal. */
  ghost predicate Above(v: int, l: Limit) {
    var n := LiteralInt(l.text);
    n.Some? ==> if l.open then n.value < v else n.value <= v
  }

  ghost predicate Below(v: int, l: Limit) {
    var n := LiteralInt(l.text);
    n.Some? ==> if l.open then v < n.value else v <= n.value
  }

  ghost predicate Says(r: Reading, col: string, v: int) {
    match r
    case Inside(c, low, high) => c == col ==> Above(v, Limit(low, false)) && Below(v, Limit(high, false))
    case AtLeast(c, limit) => c == col ==> Above(v, limit)
    case AtMost(c, limit) => c == col ==> Below(v, limit)
    case _ => true
  }

  /** v may stand in the column of a row the conjunction selects. */
  ghost predicate Selects(columns: set<string>, conjs: seq<string>, col: string, v: int) {
    forall conj :: conj in conjs ==> Says(ReadConjunct(columns, conj), col, v)
  }

  ghost predicate Within(b: Bound, v: int) {
    && (b.lo.Some? ==> Above(v, b.lo.value))
    && (b.hi.Some? ==> Below(v, b.hi.value))
  }

  /** A selected value stays within what was gathered, however often a limit was overwritten. */
  lemma {:induction false} SelectedIsWithin(columns: set<string>, conjs: seq<string>, bounds: Bounds, col: string,
                                            v: int)
    requires Selects(columns, conjs, col, v) && Within(Entry(bounds, col), v)
    requires Gather(columns, conjs, bounds).Some?
    ensures Within(Entry(Gather(columns, conjs, bounds).value, col), v)
  {
    if conjs != [] {
      var r := ReadConjunct(columns, conjs[0]);
      assert conjs[0] in conjs && Says(r, col, v);
      assert Within(Entry(Note(bounds, r), col), v);
      SelectedIsWithin(columns, conjs[1..], Note(bounds, r), col, v);
    }
  }

  /** How many integers a window with literal ends holds. */
  function WindowSize(b: Bound): nat
    requires Full(b) && LiteralInt(b.lo.value.text).Some? && LiteralInt(b.hi.value.text).Some?
  {
    var l := LiteralInt(b.lo.value.text).value + if b.lo.value.open then 1 else 0;
    var h := LiteralInt(b.hi.value.text).value - if b.hi.value.open then 1 else 0;
    Max(0, h - l + 1)
  }

  /** The int64 values of a column that the conjunction may select. */
  ghost function Selected(columns: set<string>, conjs: seq<string>, col: string): set<int> {
    set v: int | MIN_INT64 <= v <= MAX_INT64 && Selects(columns, conjs, col, v)
  }

  /** No more values are selected than the window holds. */
  lemma SelectedFitWindow(columns: set<string>, conjs: seq<string>, bounds: Bounds, col: string)
    requires Gather(columns, conjs, map[]) == Some(bounds) && col in bounds && Full(bounds[col])
    requires Measure(bounds[col]).Known?
    ensures |Selected(columns, conjs, col)| <= WindowSize(bounds[col])
  {
    var b := bounds[col];
    var l := LiteralInt(b.lo.value.text).value + if b.lo.value.open then 1 else 0;
    var h := LiteralInt(b.hi.value.text).value - if b.hi.value.open then 1 else 0;
    forall v | v in Selected(columns, conjs, col)
      ensures l <= v <= h
    {
      SelectedIsWithin(columns, conjs, map[], col, v);
    }
    SubsetSize(Selected(columns, conjs, col), Interval(l, h));
  }

  /** A computed span silences the finding only for a window below the threshold,
      exactly when the window holds at most MaxInt64 values. */
  lemma SilenceIsSoundIff(b: Bound)
    requires Full(b) && Measure(b).Known?
    ensures (Silenced(Measure(b)) ==> WindowSize(b) < THRESHOLD) <==> WindowSize(b) <= MAX_INT64
  {
  }

  /** The reported span is the number of values in the window while nothing wraps. */
  lemma SpanIsWindowSize(b: Bound)
    requires Full(b) && Measure(b).Known? && WindowSize(b) <= MAX_INT64
    ensures Measure(b).span == WindowSize(b)
            || (b.lo.value.open && LiteralInt(b.lo.value.text).value == MAX_INT64)
            || (b.hi.value.open && LiteralInt(b.hi.value.text).value == MIN_INT64)
  {
  }

  /** Whichever qualifying column the map yields: a known small span means that few
      values of that column are selected. */
  lemma SmallSpanSelectsFew(columns: set<string>, clean: string, v: Verdict)
    requires Outcome(columns, clean, v) && v.Known? && v.span < THRESHOLD
    ensures exists col, bounds :: Gathered(columns, Condition(clean).value) == Some(bounds)
              && col in bounds && Full(bounds[col]) && v == Measure(bounds[col])
              && (WindowSize(bounds[col]) <= MAX_INT64 ==>
                    |Selected(columns, Split(Condition(clean).value), col)| <= WindowSize(bounds[col]) < THRESHOLD)
  {
    var cond := Condition(clean).value;
    var bounds := Gathered(columns, cond).value;
    var col :| col in bounds && Full(bounds[col]) && v == Measure(bounds[col]);
    SelectedFitWindow(columns, Split(cond), bounds, col);
    SilenceIsSoundIff(bounds[col]);
    assert Gathered(columns, cond) == Some(bounds);
  }

  // ----- rows -----

  /** The bounded column's values in rows the conjunction may select. */
  ghost predicate SelectedRows(columns: set<string>, conjs: seq<string>, col: string, rows: seq<int>) {
    forall i :: 0 <= i < |rows| ==> rows[i] in Selected(columns, conjs, col)
  }

  /** When the bounded column is unique, a known small span of a window that did not wrap
      means that few rows are selected. */
  lemma UniqueColumnSelectsFewRows(columns: set<string>, conjs: seq<string>, bounds: Bounds, col: string,
                                   rows: seq<int>)
    requires Gather(columns, conjs, map[]) == Some(bounds) && col in bounds && Full(bounds[col])
    requires Measure(bounds[col]).Known? && Measure(bounds[col]).span < THRESHOLD
             && WindowSize(bounds[col]) <= MAX_INT64
    requires SelectedRows(columns, conjs, col, rows)
    requires forall i, j :: 0 <= i < j < |rows| ==> rows[i] != rows[j]
    ensures |rows| < THRESHOLD
  {
    SelectedFitWindow(columns, conjs, bounds, col);
    SilenceIsSoundIff(bounds[col]);
    DistinctSize(rows, Selected(columns, conjs, col));
  }

  /** When it is not, any number of rows may hold a selected value. */
  lemma RepeatedColumnSelectsMany(columns: set<string>, conjs: seq<string>, col: string, v: int, n: nat)
    requires v in Selected(columns, conjs, col)
    ensures SelectedRows(columns, conjs, col, seq(n, _ => v)) && |seq(n, _ => v)| == n
  {
  }
}
