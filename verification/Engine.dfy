/** internal/hydrate/engine.go: the value of every cell, and the key a child copies from
    its parent. */
module Engine {
  import opened CheckDomains
  import opened CheckSound
  import opened Columns
  import F = Fanouts
  import opened Nulls
  import opened Numbers
  import opened Rendering
  import opened Prng
  import T = Text
  import opened Values
  import opened Wrappers

  datatype Reference = Reference(column: string, to: string, shape: F.Reference)

  datatype Table =
    Table(rows: int, columns: map<string, Column>, references: seq<Reference>, constraints: seq<Constraint>)

  datatype Fixture = Fixture(tables: map<string, Table>, types: Types)

  /** The k-th number a cell's generator draws, by table, column and ordinal. */
  type Draws = (string, string, nat, nat) -> nat

  /** What is taken as given: the library, number parsing, powers and the cells' draws. */
  datatype World = World(lib: Library, parseFloat: ParseFloat, pow: F.Pow, draws: Draws)

  // ----- generateValue -----

  /** intn on the k-th draw. */
  function Intn(draw: nat, n: int): (r: nat)
    ensures n > 0 ==> r < n
  {
    if n <= 0 then 0 else draw % n
  }

  /** toFloat on a histogram bound. */
  function ToFloat(v: Value): Option<real> {
    match v
    case Int(i) => Some(i as real)
    case Num(x) => Some(x)
    case _ => None
  }

  /** The point a fraction of the way from the lesser of two bounds to the other. */
  function Interpolated(a: real, b: real, fraction: real): real {
    if b < a then Along(b, a - b, fraction) else Along(a, b - a, fraction)
  }

  function Along(lo: real, span: real, fraction: real): real {
    lo + fraction * span
  }

  datatype Sampled = Sampled(value: Option<Value>, drawn: nat)

  /** sampleHistogram, with how many numbers it drew. */
  function SampleHistogram(bounds: seq<Value>, first: nat, second: nat): Sampled {
    if |bounds| < 2 then Sampled(None, 0)
    else
      var b := Intn(first, |bounds| - 1);
      var l, h := ToFloat(bounds[b]), ToFloat(bounds[b + 1]);
      if l.None? || h.None? then Sampled(None, 1)
      else
        Sampled(Some(Int(ToI64(Interpolated(l.value, h.value, Fraction(second))))), 2)
  }

  predicate HasLabels(types: Types, name: string) {
    EnumLabels(types, name).Some? && EnumLabels(types, name).value != []
  }

  function DrawnLabel(types: Types, name: string, draw: nat): string
    requires HasLabels(types, name)
  {
    var labels := EnumLabels(types, name).value;
    labels[Intn(draw, |labels|)]
  }

  /** The element type of an array type. */
  function ArrayElement(typ: string): Option<string> {
    var t := T.Trim(typ);
    if T.HasSuffix(t, "[]") then Some(t[..|t| - 2]) else None
  }

  predicate HasElementLabels(types: Types, typ: string) {
    ArrayElement(typ).Some? && HasLabels(types, ArrayElement(typ).value)
  }

  /** The value of a column that is not unique: a point of its histogram, or the rendering
      of one of its buckets. */
  function SharedValue(w: World, types: Types, table: string, column: string, c: Column, ord: nat): Value {
    var d := BaseColumn(types, c);
    var sampled := if c.histogram.Some? && Categorize(d.typ).Numeric?
                   then SampleHistogram(c.histogram.value, w.draws(table, column, ord, 0),
                                         w.draws(table, column, ord, 1))
                   else Sampled(None, 0);
    if sampled.value.Some? then sampled.value.value
    else FakeValue(w.lib, d, Intn(w.draws(table, column, ord, sampled.drawn), Buckets(c)), false)
  }

  /** How many buckets a column that is not unique draws from. */
  function Buckets(c: Column): (n: nat)
    ensures n > 0
  {
    if c.distinct.Some? && c.distinct.value > 0 then c.distinct.value else 0x10_0000
  }

  function GenerateValue(w: World, types: Types, table: string, column: string, c: Column, ord: nat): Value {
    if c.nullable && c.nullFraction.Some? && IsNullAt(ord, c.nullFraction.value) then Null
    else if HasLabels(types, c.typ) then Text(DrawnLabel(types, c.typ, w.draws(table, column, ord, 0)))
    else if HasElementLabels(types, c.typ) then
      Text("{\"" + DrawnLabel(types, ArrayElement(c.typ).value, w.draws(table, column, ord, 0)) + "\"}")
    else if c.unique then FakeValue(w.lib, BaseColumn(types, c), ord, true)
    else SharedValue(w, types, table, column, c, ord)
  }

  /** What the table's CHECK constraints say about a column. */
  function DomainOn(w: World, t: Table, column: string): Domain {
    Merged(OnColumn(AllChecks(t.constraints, w.parseFloat), column))
  }

  /** A cell that is no foreign key. */
  function Cell(w: World, types: Types, name: string, t: Table, column: string, ord: nat): Value
    requires column in t.columns
  {
    ApplyCheckDomain(GenerateValue(w, types, name, column, t.columns[column], ord), DomainOn(w, t, column),
                     w.draws(name, column, ord, 0))
  }

  // ----- the key of a parent -----

  /** parentTable and parentColumnName. */
  function ParentTable(to: string): string {
    var i := T.LastIndexOf(to, '.');
    if i.None? then to else to[..i.value]
  }

  function ParentColumnName(to: string): string {
    var i := T.LastIndexOf(to, '.');
    if i.None? then to else to[i.value + 1..]
  }

  /** parentIDColumn. */
  function ParentIdColumn(f: Fixture, to: string): Option<Column> {
    if T.LastIndexOf(to, '.').None? || ParentTable(to) !in f.tables then None
    else
      var columns := f.tables[ParentTable(to)].columns;
      if ParentColumnName(to) in columns then Some(columns[ParentColumnName(to)]) else None
  }

  /** parentUniqueValue. */
  function ParentUniqueValue(w: World, c: Column, ord: nat): Value {
    FakeValue(w.lib, c, ord, true)
  }

  function MaxParentId(c: Column, parentN: int): int {
    if parentN <= 0 then 0 else NumericInRange(c, parentN - 1, true)
  }

  /** parentIDValue: the key a child of the parent ordinal carries. */
  function ParentIdValue(w: World, f: Fixture, to: string, ord: nat, parentN: int): Value {
    var c := ParentIdColumn(f, to);
    if c.None? then Int(ord)
    else
      var v := ParentUniqueValue(w, c.value, ord);
      if ord < parentN || parentN <= 0 || !v.Int? then v
      else Int(Wrap(Wrap(MaxParentId(c.value, parentN) + 1) + (ord - parentN)))
  }
}
