/** internal/hydrate/engine.go and prng.go together: the methods that draw a cell's value
    from the cell's own generator. */
module Cells {
  import opened CheckDomains
  import opened CheckSound
  import opened Columns
  import E = Engine
  import F = Fanouts
  import opened Nulls
  import opened Numbers
  import opened Prng
  import opened Rendering
  import T = Text
  import opened Values
  import opened Wrappers

  /** A run of the engine: its seed, and what is taken from Go's library. */
  datatype Run = Run(lib: Library, parseFloat: ParseFloat, pow: F.Pow, hash: seq<Byte> -> Word, seed: int)

  /** The numbers the generators of a run draw. */
  function CellDraws(hash: seq<Byte> -> Word, seed: int): E.Draws {
    (table: string, column: string, ord: nat, k: nat) =>
      var n: nat := Draw(Mix, hash(CellKey(seed, NameBytes(table), NameBytes(column), ord)), k); n
  }

  function WorldOf(run: Run): E.World {
    E.World(run.lib, run.parseFloat, run.pow, CellDraws(run.hash, run.seed))
  }

  /** A cell of a run. */
  datatype CellId = CellId(run: Run, table: string, column: string, ord: nat)

  /** The k-th number drawn for a cell. */
  function Number(id: CellId, k: nat): nat {
    WorldOf(id.run).draws(id.table, id.column, id.ord, k)
  }

  function SeedOf(id: CellId): Word {
    id.run.hash(CellKey(id.run.seed, NameBytes(id.table), NameBytes(id.column), id.ord))
  }

  lemma NumberDrawn(id: CellId, k: nat)
    ensures Number(id, k) == Draw(Mix, SeedOf(id), k)
  {
  }

  ghost function Stream(id: CellId): nat -> nat {
    (k: nat) => Number(id, k)
  }

  /** The generator yields these numbers, in order. */
  ghost predicate Yields(r: Rng, draw: nat -> nat)
    reads r
  {
    r.Valid() && forall k: nat :: draw(k) == Draw(r.mix, r.seed, k)
  }

  method RngOf(id: CellId) returns (r: Rng)
    ensures fresh(r) && r.drawn == 0 && Yields(r, Stream(id))
  {
    r := CellRng(id.run.hash, id.run.seed, id.table, id.column, id.ord);
    forall k: nat
      ensures Stream(id)(k) == Draw(r.mix, r.seed, k)
    {
      NumberDrawn(id, k);
    }
  }

  /** A number below n from the generator's next draw. */
  method Pick(r: Rng, n: int, ghost draw: nat -> nat) returns (k: int)
    requires Yields(r, draw)
    modifies r
    ensures Yields(r, draw) && k == E.Intn(draw(old(r.drawn)), n)
    ensures r.drawn == old(r.drawn) + if n > 0 then 1 else 0
  {
    k := r.Intn(n);
  }

  /** sampleHistogram: a bucket, then a point in it. */
  method SampleHistogram(bounds: seq<Value>, r: Rng, ghost draw: nat -> nat) returns (v: Option<Value>)
    requires Yields(r, draw) && r.drawn == 0
    modifies r
    ensures Yields(r, draw)
    ensures v == E.SampleHistogram(bounds, draw(0), draw(1)).value
    ensures r.drawn == E.SampleHistogram(bounds, draw(0), draw(1)).drawn
  {
    if |bounds| < 2 {
      return None;
    }
    var b := Pick(r, |bounds| - 1, draw);
    var l, h := E.ToFloat(bounds[b]), E.ToFloat(bounds[b + 1]);
    if l.None? || h.None? {
      return None;
    }
    var fraction := r.Float64();
    v := Some(Int(ToI64(E.Interpolated(l.value, h.value, fraction))));
  }

  /** generateValue, drawing from a fresh generator of the cell. */
  method GenerateValue(run: Run, types: Types, table: string, column: string, c: Column, ord: nat) returns (v: Value)
    ensures v == E.GenerateValue(WorldOf(run), types, table, column, c, ord)
  {
    if c.nullable && c.nullFraction.Some? && IsNullAt(ord, c.nullFraction.value) {
      return Null;
    }
    var id := CellId(run, table, column, ord);
    var r := RngOf(id);
    if E.HasLabels(types, c.typ) {
      var labels := EnumLabels(types, c.typ).value;
      var k := Pick(r, |labels|, Stream(id));
      return Text(labels[k]);
    }
    if E.HasElementLabels(types, c.typ) {
      var labels := EnumLabels(types, E.ArrayElement(c.typ).value).value;
      var k := Pick(r, |labels|, Stream(id));
      return Text("{\"" + labels[k] + "\"}");
    }
    var d := BaseColumn(types, c);
    if !c.unique && c.histogram.Some? && Categorize(d.typ).Numeric? {
      var sampled := SampleHistogram(c.histogram.value, r, Stream(id));
      if sampled.Some? {
        return sampled.value;
      }
    }
    var n := ord;
    if !c.unique {
      n := Pick(r, E.Buckets(c), Stream(id));
    }
    v := FakeValue(run.lib, d, n, c.unique);
  }

  /** A cell that is no foreign key: applyCheckDomain draws from a second fresh generator. */
  method GenerateCell(run: Run, types: Types, name: string, t: E.Table, column: string, dom: Domain, ord: nat)
    returns (v: Value)
    requires column in t.columns && dom == E.DomainOn(WorldOf(run), t, column)
    ensures v == E.Cell(WorldOf(run), types, name, t, column, ord)
  {
    v := GenerateValue(run, types, name, column, t.columns[column], ord);
    if v == Null {
      return;
    }
    var id := CellId(run, name, column, ord);
    var r := RngOf(id);
    if |dom.values| > 0 {
      var k := Pick(r, |dom.values|, Stream(id));
      v := Text(dom.values[k]);
    } else {
      v := ClampNumeric(v, dom.min, dom.max);
    }
  }
}
