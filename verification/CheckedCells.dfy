/** Which generated cells meet the CHECK constraints of their table (internal/hydrate/engine.go
    on top of internal/hydrate/checkdomain.go). */
module CheckedCells {
  import opened CheckDomains
  import opened CheckSound
  import CheckText
  import opened Columns
  import opened Cells
  import E = Engine
  import G = Generation
  import K = Keys
  import opened Numbers
  import opened Values
  import opened Wrappers

  /** The recognized checks on a column, in the constraints' order. */
  function ChecksOn(w: E.World, t: E.Table, column: string): seq<Check> {
    OnColumn(AllChecks(t.constraints, w.parseFloat), column)
  }

  // ----- the parser yields no empty list -----

  predicate Listed(c: Check) {
    c.In? ==> c.values != []
  }

  lemma {:induction false} ComparisonIsBound(s: string, ops: seq<string>, pf: ParseFloat)
    ensures var p := ParseComparison(s, ops, pf); p.Some? ==> !p.value.check.In?
  {
    if ops != [] {
      ComparisonIsBound(s, ops[1..], pf);
    }
  }

  lemma AtomListed(part: string, pf: ParseFloat)
    ensures var p := ParseCheckAtom(part, pf); p.Some? ==> Listed(p.value.check)
  {
    ComparisonIsBound(CheckText.StripOuterParens(part), OPERATORS, pf);
  }

  lemma {:induction false} PartsListed(parts: seq<string>, pf: ParseFloat)
    ensures forall p :: p in ChecksIn(parts, pf) ==> Listed(p.check)
  {
    if parts != [] {
      PartsListed(parts[..|parts| - 1], pf);
      AtomListed(parts[|parts| - 1], pf);
    }
  }

  lemma {:induction false} AllListed(cons: seq<Constraint>, pf: ParseFloat)
    ensures forall p :: p in AllChecks(cons, pf) ==> Listed(p.check)
  {
    if cons != [] {
      var n := |cons| - 1;
      AllListed(cons[..n], pf);
      PartsListed(CheckText.Conjuncts(cons[n].expression), pf);
    }
  }

  lemma {:induction false} OnColumnListed(ps: seq<Parsed>, column: string)
    requires forall p :: p in ps ==> Listed(p.check)
    ensures forall c :: c in OnColumn(ps, column) ==> Listed(c)
  {
    if ps != [] {
      var n := |ps| - 1;
      assert forall p :: p in ps[..n] ==> p in ps;
      OnColumnListed(ps[..n], column);
      assert ps[n] in ps;
    }
  }

  // ----- one cell -----

  /** No generated value is a fraction. */
  lemma NeverFraction(w: E.World, types: Types, name: string, column: string, c: Column, ord: nat)
    ensures !E.GenerateValue(w, types, name, column, c, ord).Num?
  {
  }

  /** A cell that is no foreign key and not NULL meets every recognized check on its column
      exactly when the generated value is one its checks can be met from. */
  lemma CellMeetsIff(w: E.World, types: Types, name: string, t: E.Table, column: string, ord: nat)
    requires column in t.columns && E.Cell(w, types, name, t, column, ord) != Null
    ensures SatisfiesAll(ChecksOn(w, t, column), E.Cell(w, types, name, t, column, ord))
            <==> Met(ChecksOn(w, t, column), E.GenerateValue(w, types, name, column, t.columns[column], ord))
  {
    var v := E.GenerateValue(w, types, name, column, t.columns[column], ord);
    NeverFraction(w, types, name, column, t.columns[column], ord);
    AllListed(t.constraints, w.parseFloat);
    OnColumnListed(AllChecks(t.constraints, w.parseFloat), column);
    CellMeetsChecksIff(ChecksOn(w, t, column), v, w.draws(name, column, ord, 0));
  }

  // ----- a generated column -----

  /** Every cell of the column that is not NULL meets every recognized check on it. */
  ghost predicate ColumnMeets(w: E.World, f: E.Fixture, g: G.Generated, k: nat)
    requires g.name in f.tables && k < |g.columns| == g.rows.Length1
    reads g.rows
  {
    forall o: nat :: o < g.rows.Length0 && g.rows[o, k] != Null ==>
                       SatisfiesAll(ChecksOn(w, f.tables[g.name], g.columns[k]), g.rows[o, k])
  }

  /** The value generated for a row, before its checks. */
  function Drawn(w: E.World, f: E.Fixture, g: G.Generated, k: nat, o: nat): Value
    requires g.name in f.tables && k < |g.columns| && g.columns[k] in f.tables[g.name].columns
  {
    E.GenerateValue(w, f.types, g.name, g.columns[k], f.tables[g.name].columns[g.columns[k]], o)
  }

  /** In a generated table, a column that is no foreign key meets its checks exactly when
      every value generated for it is NULL or one its checks can be met from. */
  lemma ColumnMeetsIff(run: Run, f: E.Fixture, g: G.Generated, fks: G.Assignments, counts: G.RowCounts, k: nat)
    requires G.Holds(WorldOf(run), f, g, fks, counts) && k < |g.columns| && g.columns[k] !in fks
    ensures g.columns[k] in f.tables[g.name].columns
    ensures ColumnMeets(WorldOf(run), f, g, k)
            <==> forall o: nat :: o < g.rows.Length0 && Drawn(WorldOf(run), f, g, k, o) != Null ==>
                                    Met(ChecksOn(WorldOf(run), f.tables[g.name], g.columns[k]),
                                        Drawn(WorldOf(run), f, g, k, o))
  {
    assert g.columns[k] in g.columns;
    forall o: nat | o < g.rows.Length0
      ensures g.rows[o, k] == Null <==> Drawn(WorldOf(run), f, g, k, o) == Null
      ensures g.rows[o, k] != Null ==>
                (SatisfiesAll(ChecksOn(WorldOf(run), f.tables[g.name], g.columns[k]), g.rows[o, k])
                 <==> Met(ChecksOn(WorldOf(run), f.tables[g.name], g.columns[k]), Drawn(WorldOf(run), f, g, k, o)))
    {
      RowMeetsIff(WorldOf(run), f, g, fks, counts, k, o);
    }
  }

  lemma RowMeetsIff(w: E.World, f: E.Fixture, g: G.Generated, fks: G.Assignments, counts: G.RowCounts, k: nat, o: nat)
    requires G.Holds(w, f, g, fks, counts) && k < |g.columns| && g.columns[k] !in fks && o < g.rows.Length0
    requires g.columns[k] in f.tables[g.name].columns
    ensures g.rows[o, k] == Null <==> Drawn(w, f, g, k, o) == Null
    ensures g.rows[o, k] != Null ==>
              (SatisfiesAll(ChecksOn(w, f.tables[g.name], g.columns[k]), g.rows[o, k])
               <==> Met(ChecksOn(w, f.tables[g.name], g.columns[k]), Drawn(w, f, g, k, o)))
  {
    assert g.rows[o, k] == G.CellOf(w, f, g.name, fks, counts, g.columns[k], o);
    if g.rows[o, k] != Null {
      CellMeetsIff(w, f.types, g.name, f.tables[g.name], g.columns[k], o);
    }
  }

  // ----- columns of numbers -----

  /** An unhinted column of a number type that is drawn from no labels. */
  predicate NumberColumn(types: Types, c: Column) {
    c.format == NoFormat && Categorize(ResolveType(types, c.typ)).Numeric? && !K.DrawsLabels(types, c)
  }

  lemma NumberColumnDraws(w: E.World, types: Types, name: string, column: string, c: Column, ord: nat)
    requires NumberColumn(types, c)
    ensures var v := E.GenerateValue(w, types, name, column, c, ord);
            if K.NullAt(c, ord) then v == Null else v.Int?
  {
  }

  lemma IntegralMetIff(checks: seq<Check>, n: int)
    requires OnlyBounds(checks) && Integral(Merged(checks))
    ensures Met(checks, Int(n)) <==> Consistent(Merged(checks))
  {
    if checks == [] {
      assert Met(checks, Int(n));
    } else {
      IntegralBoundsAreSafeIff(checks, n, 0);
      ClampedIntegerSatisfiesIff(checks, n, 0);
      NoListAmongBounds(checks);
    }
  }

  /** With integral bounds, a generated column of numbers meets its checks exactly when the
      merged bounds are consistent, or every row is NULL. */
  lemma NumberColumnMeetsIff(run: Run, f: E.Fixture, g: G.Generated, fks: G.Assignments, counts: G.RowCounts, k: nat)
    requires G.Holds(WorldOf(run), f, g, fks, counts) && k < |g.columns| && g.columns[k] !in fks
    requires g.columns[k] in f.tables[g.name].columns && NumberColumn(f.types, f.tables[g.name].columns[g.columns[k]])
    requires OnlyBounds(ChecksOn(WorldOf(run), f.tables[g.name], g.columns[k]))
    requires Integral(E.DomainOn(WorldOf(run), f.tables[g.name], g.columns[k]))
    ensures ColumnMeets(WorldOf(run), f, g, k)
            <==> Consistent(E.DomainOn(WorldOf(run), f.tables[g.name], g.columns[k]))
                 || forall o: nat :: o < g.rows.Length0 ==> K.NullAt(f.tables[g.name].columns[g.columns[k]], o)
  {
    var w, c := WorldOf(run), f.tables[g.name].columns[g.columns[k]];
    var checks := ChecksOn(w, f.tables[g.name], g.columns[k]);
    ColumnMeetsIff(run, f, g, fks, counts, k);
    forall o: nat | o < g.rows.Length0
      ensures Drawn(w, f, g, k, o) == Null <==> K.NullAt(c, o)
      ensures !K.NullAt(c, o) ==> (Met(checks, Drawn(w, f, g, k, o)) <==> Consistent(Merged(checks)))
    {
      NumberRowMet(w, f, g, k, o);
    }
  }

  lemma NumberRowMet(w: E.World, f: E.Fixture, g: G.Generated, k: nat, o: nat)
    requires g.name in f.tables && k < |g.columns| && g.columns[k] in f.tables[g.name].columns
    requires NumberColumn(f.types, f.tables[g.name].columns[g.columns[k]])
    requires OnlyBounds(ChecksOn(w, f.tables[g.name], g.columns[k]))
             && Integral(E.DomainOn(w, f.tables[g.name], g.columns[k]))
    ensures Drawn(w, f, g, k, o) == Null <==> K.NullAt(f.tables[g.name].columns[g.columns[k]], o)
    ensures Drawn(w, f, g, k, o) != Null ==>
              (Met(ChecksOn(w, f.tables[g.name], g.columns[k]), Drawn(w, f, g, k, o))
               <==> Consistent(E.DomainOn(w, f.tables[g.name], g.columns[k])))
  {
    NumberColumnDraws(w, f.types, g.name, g.columns[k], f.tables[g.name].columns[g.columns[k]], o);
    var v := Drawn(w, f, g, k, o);
    if v != Null {
      IntegralMetIff(ChecksOn(w, f.tables[g.name], g.columns[k]), v.i);
    }
  }
}
