/** internal/hydrate/engine.go: generating the tables of a fixture, and what stays the
    same when the scale grows or a column is added. */
module Generation {
  import opened Budget
  import C = CheckDomains
  import opened Cells
  import opened CheckSound
  import opened Columns
  import D = EveryDraw
  import E = Engine
  import F = Fanouts
  import Keys
  import opened Holders
  import opened Numbers
  import opened Order
  import O = Orphans
  import opened Rendering
  import Sums
  import opened Text
  import opened Values
  import opened Wrappers

  type RowCounts = map<string, nat>

  function RowsOf(counts: RowCounts, name: string): nat {
    if name in counts then counts[name] else 0
  }

  // ----- the columns of a table -----

  /** A column of a type that no value can be synthesized for. */
  predicate Refusable(types: Types, c: Column) {
    EnumLabels(types, c.typ).None? && !GeneratedByDatabase(c) && UnsupportedType(ResolveType(types, c.typ))
  }

  /** The columns given values, in order. */
  function Insertable(t: E.Table): (cols: seq<string>)
    ensures forall c :: c in cols <==> c in t.columns && !GeneratedByDatabase(t.columns[c])
    ensures Ascending(cols)
  {
    var cols := Sorted(set c | c in t.columns && !GeneratedByDatabase(t.columns[c]));
    assert forall c :: c in cols <==> c in Elements(cols);
    cols
  }

  /** A column is left to the database exactly when it is stored and its expression is known. */
  lemma StoredLeftOut(t: E.Table, column: string)
    requires column in t.columns
    ensures column in Insertable(t)
            <==> t.columns[column].generated != "stored" || t.columns[column].expression in ["", "opaque"]
  {
  }

  /** A column whose type the fixture does not define is refused exactly when it is a text-search,
      range or geometric one. */
  lemma RefusedIff(types: Types, c: Column)
    requires c.typ !in types && !GeneratedByDatabase(c)
    ensures Refusable(types, c)
            <==> HasSuffix(Lower(Trim(c.typ)), "range")
                 || Lower(Trim(c.typ)) in ["tsvector", "tsquery", "line", "lseg", "box", "path", "polygon", "circle"]
  {
  }

  /** Foreign-key columns with the reference that governs them and their rows' ordinals. */
  type Assignments = map<string, (E.Reference, seq<int>)>

  /** The last reference of a column. */
  function RefOn(refs: seq<E.Reference>, column: string): Option<E.Reference> {
    if refs == [] then None
    else if refs[|refs| - 1].column == column then Some(refs[|refs| - 1])
    else RefOn(refs[..|refs| - 1], column)
  }

  /** What assignForeignKeys returns for a reference. */
  ghost predicate Assigned(w: E.World, fk: seq<int>, shape: F.Reference, childN: nat, parentN: nat,
                           declaredChild: int) {
    && |fk| == childN && (forall i :: 0 <= i < childN ==> fk[i] >= 0)
    && (parentN == 0 ==> forall i :: 0 <= i < childN ==> fk[i] == 0)
    && (parentN > 0 && shape.fanout.None? ==> forall i :: 0 <= i < childN ==> fk[i] == i % parentN)
    && (parentN > 0 && shape.fanout.Some? && childN > 0 ==>
          exists counts, orphans :: F.FanoutAssignment(fk, counts, orphans, w.pow, shape.fanout.value,
                                                       shape.orphanFraction, childN, parentN, declaredChild))
  }

  /** Every column with a reference has an assignment, by its last reference. */
  ghost predicate AllAssigned(w: E.World, t: E.Table, refs: seq<E.Reference>, fks: Assignments, counts: RowCounts,
                              n: nat) {
    forall column: string ::
      (column in fks <==> RefOn(refs, column).Some?)
      && (column in fks ==>
            fks[column].0 == RefOn(refs, column).value
            && Assigned(w, fks[column].1, fks[column].0.shape, n,
                        RowsOf(counts, E.ParentTable(fks[column].0.to)), t.rows))
  }

  method AssignAll(w: E.World, t: E.Table, counts: RowCounts, n: nat) returns (fks: Assignments)
    ensures AllAssigned(w, t, t.references, fks, counts, n)
  {
    fks := map[];
    var refs := t.references;
    for i := 0 to |refs|
      invariant AllAssigned(w, t, refs[..i], fks, counts, n)
    {
      var fk := AssignOne(w, refs[i], counts, n, t.rows);
      AssignNext(w, t, refs, fks, counts, n, i, fk);
      fks := fks[refs[i].column := (refs[i], fk)];
    }
    assert refs[..|refs|] == refs;
  }

  lemma AssignNext(w: E.World, t: E.Table, refs: seq<E.Reference>, fks: Assignments, counts: RowCounts, n: nat, i: nat,
                   fk: seq<int>)
    requires i < |refs| && AllAssigned(w, t, refs[..i], fks, counts, n)
    requires Assigned(w, fk, refs[i].shape, n, RowsOf(counts, E.ParentTable(refs[i].to)), t.rows)
    ensures AllAssigned(w, t, refs[..i + 1], fks[refs[i].column := (refs[i], fk)], counts, n)
  {
    assert refs[..i + 1][..i] == refs[..i];
  }

  method AssignOne(w: E.World, ref: E.Reference, counts: RowCounts, n: nat, declaredChild: int) returns (fk: seq<int>)
    ensures Assigned(w, fk, ref.shape, n, RowsOf(counts, E.ParentTable(ref.to)), declaredChild)
  {
    var parentN := RowsOf(counts, E.ParentTable(ref.to));
    var out, groups, orphans := F.AssignForeignKeys(w.pow, ref.shape, n, parentN, declaredChild);
    fk := out[..];
    if parentN > 0 && ref.shape.fanout.Some? && n > 0 {
      F.AssignmentOrphanRows(fk, groups, orphans, w.pow, ref.shape.fanout.value, ref.shape.orphanFraction, n, parentN,
                             declaredChild);
    }
  }

  // ----- generateTable -----

  datatype Generated = Generated(name: string, columns: seq<string>, rows: array2<Value>, declaredRows: int)

  /** The value of a cell: the key of the assigned parent, or the column's own. */
  function CellOf(w: E.World, f: E.Fixture, name: string, fks: Assignments, counts: RowCounts, column: string,
                  ord: nat): Value
    requires name in f.tables && column in f.tables[name].columns
    requires column in fks ==> ord < |fks[column].1| && fks[column].1[ord] >= 0
  {
    if column in fks then
      E.ParentIdValue(w, f, fks[column].0.to, fks[column].1[ord], RowsOf(counts, E.ParentTable(fks[column].0.to)))
    else E.Cell(w, f.types, name, f.tables[name], column, ord)
  }

  /** A generated table holds the value of every cell. */
  ghost predicate Holds(w: E.World, f: E.Fixture, g: Generated, fks: Assignments, counts: RowCounts)
    reads g.rows
  {
    && g.name in f.tables && g.columns == Insertable(f.tables[g.name])
    && g.declaredRows == f.tables[g.name].rows
    && g.rows.Length0 == RowsOf(counts, g.name) && g.rows.Length1 == |g.columns|
    && AllAssigned(w, f.tables[g.name], f.tables[g.name].references, fks, counts, g.rows.Length0)
    && forall o, k :: 0 <= o < g.rows.Length0 && 0 <= k < |g.columns| ==>
                        g.rows[o, k] == CellOf(w, f, g.name, fks, counts, g.columns[k], o)
  }

  /** Every column of the table has a synthesis rule. */
  ghost predicate NoneRefusable(f: E.Fixture, name: string) {
    name in f.tables && forall c :: c in f.tables[name].columns ==> !Refusable(f.types, f.tables[name].columns[c])
  }

  datatype Outcome = Refused(column: string) | Made(table: Generated)

  /** A value for every cell, or the first column whose type has no synthesis rule. */
  method GenerateTable(run: Run, f: E.Fixture, name: string, counts: RowCounts)
    returns (r: Outcome, ghost fks: Assignments)
    requires name in f.tables
    ensures r.Refused? ==> r.column in f.tables[name].columns && Refusable(f.types, f.tables[name].columns[r.column])
                           && forall c :: c in f.tables[name].columns && Less(c, r.column) ==>
                                            !Refusable(f.types, f.tables[name].columns[c])
    ensures r.Made? ==> fresh(r.table.rows) && r.table.name == name && Holds(WorldOf(run), f, r.table, fks, counts)
    ensures r.Made? ==> NoneRefusable(f, name)
  {
    var w, t, n := WorldOf(run), f.tables[name], RowsOf(counts, name);
    fks := map[];
    var refused := FirstRefusable(f.types, t);
    if refused.Some? {
      return Refused(refused.value), map[];
    }
    var cols := Insertable(t);
    var rows := new Value[n, |cols|];
    var laid := AssignAll(w, t, counts, n);
    fks := laid;
    var domains := C.CheckDomains(t.constraints, w.parseFloat);
    for ci := 0 to |cols|
      invariant fresh(rows)
      invariant forall o, k :: 0 <= o < n && 0 <= k < ci ==> rows[o, k] == CellOf(w, f, name, fks, counts, cols[k], o)
    {
      assert cols[ci] in cols;
      ghost var cells := seq(n, o requires 0 <= o < n => CellOf(w, f, name, laid, counts, cols[ci], o));
      FillColumn(run, w, f, name, counts, laid, C.Lookup(domains, cols[ci]), rows, ci, cols[ci], cells);
    }
    r := Made(Generated(name, cols, rows, t.rows));
  }

  /** The values of a column, row by row. */
  ghost predicate IsColumn(w: E.World, f: E.Fixture, name: string, counts: RowCounts, laid: Assignments, col: string,
                           cells: seq<Value>)
    requires name in f.tables && col in f.tables[name].columns
    requires col in laid ==> |laid[col].1| == |cells| && forall i :: 0 <= i < |cells| ==> laid[col].1[i] >= 0
  {
    forall o: nat {:trigger CellOf(w, f, name, laid, counts, col, o)} ::
      o < |cells| ==> cells[o] == CellOf(w, f, name, laid, counts, col, o)
  }

  /** The loop over the rows of one column. */
  method FillColumn(run: Run, w: E.World, f: E.Fixture, name: string, counts: RowCounts, laid: Assignments,
                    dom: C.Domain,
                    rows: array2<Value>, ci: nat, col: string, ghost cells: seq<Value>)
    requires w == WorldOf(run)
    requires name in f.tables && col in f.tables[name].columns && ci < rows.Length1
    requires dom == E.DomainOn(w, f.tables[name], col)
    requires col in laid ==> |laid[col].1| == rows.Length0 && forall i :: 0 <= i < rows.Length0 ==> laid[col].1[i] >= 0
    requires |cells| == rows.Length0 && IsColumn(w, f, name, counts, laid, col, cells)
    modifies rows
    ensures forall o :: 0 <= o < rows.Length0 ==> rows[o, ci] == cells[o]
    ensures forall o, k :: 0 <= o < rows.Length0 && 0 <= k < rows.Length1 && k != ci ==> rows[o, k] == old(rows[o, k])
  {
    for ord := 0 to rows.Length0
      invariant forall o :: 0 <= o < ord ==> rows[o, ci] == cells[o]
      invariant forall o, k :: 0 <= o < rows.Length0 && 0 <= k < rows.Length1 && k != ci ==>
                                 rows[o, k] == old(rows[o, k])
    {
      var v := CellValue(run, w, f, name, counts, laid, dom, col, ord, cells);
      rows[ord, ci] := v;
    }
  }

  /** The value of one cell, drawn from the cell's own generator. */
  method CellValue(run: Run, w: E.World, f: E.Fixture, name: string, counts: RowCounts, laid: Assignments,
                   dom: C.Domain,
                   col: string, ord: nat, ghost cells: seq<Value>)
    returns (v: Value)
    requires w == WorldOf(run)
    requires name in f.tables && col in f.tables[name].columns && dom == E.DomainOn(w, f.tables[name], col)
    requires col in laid ==> |laid[col].1| == |cells| && forall i :: 0 <= i < |cells| ==> laid[col].1[i] >= 0
    requires ord < |cells| && IsColumn(w, f, name, counts, laid, col, cells)
    ensures v == cells[ord]
  {
    assert cells[ord] == CellOf(w, f, name, laid, counts, col, ord);
    if col in laid {
      var (ref, fk) := laid[col];
      v := E.ParentIdValue(w, f, ref.to, fk[ord], RowsOf(counts, E.ParentTable(ref.to)));
    } else {
      v := GenerateCell(run, f.types, name, f.tables[name], col, dom, ord);
    }
  }

  method FirstRefusable(types: Types, t: E.Table) returns (r: Option<string>)
    ensures r.Some? ==> r.value in t.columns && Refusable(types, t.columns[r.value])
                        && forall c :: c in t.columns && Less(c, r.value) ==> !Refusable(types, t.columns[c])
    ensures r.None? ==> forall c :: c in t.columns ==> !Refusable(types, t.columns[c])
  {
    var names := Sorted(t.columns.Keys);
    for i := 0 to |names|
      invariant forall k :: 0 <= k < i ==> names[k] in t.columns && !Refusable(types, t.columns[names[k]])
    {
      assert names[i] in Elements(names);
      if Refusable(types, t.columns[names[i]]) {
        forall c | c in t.columns && Less(c, names[i])
          ensures !Refusable(types, t.columns[c])
        {
          assert c in Elements(names);
          var k :| 0 <= k < |names| && names[k] == c;
          LessTotal(names[i], names[k]);
        }
        return Some(names[i]);
      }
    }
    forall c | c in t.columns
      ensures !Refusable(types, t.columns[c])
    {
      assert c in Elements(names);
    }
    r := None;
  }

  // ----- Generate -----

  /** The hydrated row count of every table. */
  function CountRows(f: E.Fixture, scale: real, maxRows: int, narrow: Narrow): RowCounts {
    map name | name in f.tables :: HydratedRowCount(f.tables[name].rows, scale, maxRows, narrow)
  }

  /** A scale that is not positive means the whole fixture. */
  function EffectiveScale(scale: real): real {
    if scale <= 0.0 then 1.0 else scale
  }

  /** The tables as checkBudget sees them, in order of name. */
  function Sizes(f: E.Fixture, names: seq<string>, counts: RowCounts): seq<Table>
    requires forall n :: n in names ==> n in f.tables
  {
    seq(|names|, i requires 0 <= i < |names| => Table(RowsOf(counts, names[i]), |f.tables[names[i]].columns|))
  }

  datatype Result =
    | OverBudget(verdict: Verdict)
    | Unsupported(table: string, column: string)
    | Hydrated(tables: seq<Generated>)

  /** A table of that name, every column of which has a synthesis rule, holds every cell. */
  ghost predicate HeldAs(w: E.World, f: E.Fixture, name: string, g: Generated, fks: Assignments, counts: RowCounts)
    reads g.rows
  {
    g.name == name && NoneRefusable(f, name) && Holds(w, f, g, fks, counts)
  }

  /** All tables in order of name, each holding the value of every cell. */
  ghost predicate AllHeld(w: E.World, f: E.Fixture, names: seq<string>, tables: seq<Generated>, fks: seq<Assignments>,
                          counts: RowCounts)
    reads set g | g in tables :: g.rows
  {
    && |tables| == |fks| <= |names|
    && forall i :: 0 <= i < |tables| ==> HeldAs(w, f, names[i], tables[i], fks[i], counts)
  }

  /** Hydrates nothing over the budget; otherwise every table, or the first column that
      cannot be synthesized. */
  method Generate(run: Run, f: E.Fixture, scale: real, maxRows: int, maxCells: int, narrow: Narrow)
    returns (r: Result, ghost fks: seq<Assignments>)
    requires IsInt64(maxCells)
    requires forall n :: n in f.tables ==> |f.tables[n].columns| <= MAX_INT64
    requires forall x :: IsInt64(narrow(x))
    ensures forall n :: n in Sorted(f.tables.Keys) ==> n in f.tables
    ensures var counts := CountRows(f, EffectiveScale(scale), maxRows, narrow);
            r.OverBudget? <==>
            maxCells >= 0
            && TotalCells(Sizes(f, Sorted(f.tables.Keys), counts)) > if maxCells == 0 then 50_000_000 else maxCells
    ensures r.Unsupported? ==> r.table in f.tables && r.column in f.tables[r.table].columns
                               && Refusable(f.types, f.tables[r.table].columns[r.column])
    ensures r.Hydrated? ==> forall n :: n in f.tables ==> NoneRefusable(f, n)
    ensures r.Hydrated? ==>
              var names, counts := Sorted(f.tables.Keys), CountRows(f, EffectiveScale(scale), maxRows, narrow);
              |r.tables| == |names| && AllHeld(WorldOf(run), f, names, r.tables, fks, counts)
  {
    fks := [];
    var counts := CountRows(f, EffectiveScale(scale), maxRows, narrow);
    var names := Sorted(f.tables.Keys);
    forall n | n in names
      ensures n in f.tables
    {
      assert n in Elements(names);
    }
    var verdict := CheckBudget(Sizes(f, names, counts), maxCells);
    if verdict != Accepted {
      return OverBudget(verdict), [];
    }
    r, fks := GenerateAll(run, f, names, counts);
    if r.Hydrated? {
      HeldHaveRules(WorldOf(run), f, names, r.tables, fks, counts);
    }
  }

  lemma HeldHaveRules(w: E.World, f: E.Fixture, names: seq<string>, tables: seq<Generated>, fks: seq<Assignments>,
                      counts: RowCounts)
    requires names == Sorted(f.tables.Keys) && |tables| == |names| && AllHeld(w, f, names, tables, fks, counts)
    ensures forall n :: n in f.tables ==> NoneRefusable(f, n)
  {
    forall n | n in f.tables
      ensures NoneRefusable(f, n)
    {
      assert n in Elements(names);
      var i :| 0 <= i < |names| && names[i] == n;
      assert HeldAs(w, f, names[i], tables[i], fks[i], counts);
    }
  }

  /** The loop over the tables. */
  method GenerateAll(run: Run, f: E.Fixture, names: seq<string>, counts: RowCounts)
    returns (r: Result, ghost fks: seq<Assignments>)
    requires forall n :: n in names ==> n in f.tables
    ensures !r.OverBudget?
    ensures r.Unsupported? ==> r.table in f.tables && r.column in f.tables[r.table].columns
                               && Refusable(f.types, f.tables[r.table].columns[r.column])
    ensures r.Hydrated? ==> |r.tables| == |names| && AllHeld(WorldOf(run), f, names, r.tables, fks, counts)
  {
    fks := [];
    var tables: seq<Generated> := [];
    for i := 0 to |names|
      invariant |tables| == |fks| == i
      invariant forall j :: 0 <= j < i ==> HeldAs(WorldOf(run), f, names[j], tables[j], fks[j], counts)
    {
      assert names[i] in names;
      var outcome, laid := GenerateTable(run, f, names[i], counts);
      if outcome.Refused? {
        return Unsupported(names[i], outcome.column), [];
      }
      tables, fks := tables + [outcome.table], fks + [laid];
    }
    r := Hydrated(tables);
  }

  /** A generated table has the rows that its declared count, the scale and the cap ask for; a
      scale that is not positive stands for the whole fixture. */
  lemma GeneratedRows(w: E.World, f: E.Fixture, g: Generated, fks: Assignments, scale: real, maxRows: int,
                      narrow: Narrow)
    requires Holds(w, f, g, fks, CountRows(f, EffectiveScale(scale), maxRows, narrow))
    requires ScaledFits(f.tables[g.name].rows, if scale <= 0.0 then 1.0 else scale)
    ensures RowsFollow(f.tables[g.name].rows, if scale <= 0.0 then 1.0 else scale, maxRows, g.rows.Length0)
  {
    RowCountFollows(f.tables[g.name].rows, EffectiveScale(scale), maxRows, narrow);
  }

  // ----- stability -----

  /** A larger scale extends every column that is no foreign key: the rows of the smaller
      run are its first rows. */
  lemma LargerScaleExtends(run: Run, f: E.Fixture, s: real, t: real, maxRows: int, narrow: Narrow,
                           g: Generated, h: Generated, gfks: Assignments, hfks: Assignments, k: nat)
    requires 0.0 < s <= t && g.name == h.name && g.name in f.tables
    requires ScaledFits(f.tables[g.name].rows, t)
    requires Holds(WorldOf(run), f, g, gfks, CountRows(f, s, maxRows, narrow))
    requires Holds(WorldOf(run), f, h, hfks, CountRows(f, t, maxRows, narrow))
    requires k < |g.columns| && RefOn(f.tables[g.name].references, g.columns[k]).None?
    ensures g.columns == h.columns && g.rows.Length0 <= h.rows.Length0
    ensures forall o :: 0 <= o < g.rows.Length0 ==> g.rows[o, k] == h.rows[o, k]
  {
    RowCountGrows(f.tables[g.name].rows, s, t, maxRows, narrow);
    assert g.columns[k] !in gfks && g.columns[k] !in hfks;
  }

  /** The fixture with one more column in one table. */
  function WithColumn(f: E.Fixture, name: string, column: string, c: Column): E.Fixture
    requires name in f.tables
  {
    f.(tables := f.tables[name := f.tables[name].(columns := f.tables[name].columns[column := c])])
  }

  /** Adding a column changes no cell of any other column that is no foreign key, in its
      own table or another. */
  lemma NewColumnChangesNothing(run: Run, f: E.Fixture, table: string, column: string, c: Column, counts: RowCounts,
                                g: Generated, h: Generated, gfks: Assignments, hfks: Assignments, k: nat, m: nat)
    requires table in f.tables && column !in f.tables[table].columns
    requires Holds(WorldOf(run), f, g, gfks, counts)
    requires Holds(WorldOf(run), WithColumn(f, table, column, c), h, hfks, counts)
    requires g.name == h.name && k < |g.columns| && m < |h.columns| && g.columns[k] == h.columns[m]
    requires RefOn(f.tables[g.name].references, g.columns[k]).None?
    ensures g.rows.Length0 == h.rows.Length0
    ensures forall o :: 0 <= o < g.rows.Length0 ==> g.rows[o, k] == h.rows[o, m]
  {
    assert g.columns[k] in g.columns && g.columns[k] in f.tables[g.name].columns;
    assert g.columns[k] !in gfks && g.columns[k] !in hfks;
    forall o | 0 <= o < g.rows.Length0
      ensures g.rows[o, k] == h.rows[o, m]
    {
      assert h.rows[o, m]
             == CellOf(WorldOf(run), WithColumn(f, table, column, c), h.name, hfks, counts, h.columns[m], o);
    }
  }

  // ----- references between generated tables -----

  /** How a parent column gets its cells: a foreign key from its own assignment. */
  function HeldBy(pfks: Assignments, counts: RowCounts, column: string): Keys.Held {
    if column in pfks then
      var (ref, pk) := pfks[column];
      Keys.Borrowed(ref.to, pk, RowsOf(counts, E.ParentTable(ref.to)))
    else Keys.Own
  }

  /** The assigned ordinals are int64s. */
  ghost predicate Int64Assigned(fks: Assignments) {
    forall column :: column in fks ==> forall i :: 0 <= i < |fks[column].1| ==> fks[column].1[i] <= MAX_INT64
  }

  /** They are while no table has more than half of int64's rows. */
  lemma AssignedInt64(w: E.World, t: E.Table, fks: Assignments, counts: RowCounts, n: nat)
    requires AllAssigned(w, t, t.references, fks, counts, n)
    requires forall name :: name in counts ==> 2 * counts[name] <= MAX_INT64
    ensures Int64Assigned(fks)
  {
    forall column, i | column in fks && 0 <= i < |fks[column].1|
      ensures fks[column].1[i] <= MAX_INT64
    {
      var (ref, fk) := fks[column];
      var parentN := RowsOf(counts, E.ParentTable(ref.to));
      if parentN > 0 && ref.shape.fanout.Some? && n > 0 {
        var fo, of := ref.shape.fanout.value, ref.shape.orphanFraction;
        var sizes, orphans :| F.FanoutAssignment(fk, sizes, orphans, w.pow, fo, of, n, parentN, t.rows);
        F.AssignmentOrphanRows(fk, sizes, orphans, w.pow, fo, of, n, parentN, t.rows);
        F.AssignmentFollowsCounts(fk, sizes, orphans, w.pow, fo, of, n, parentN, t.rows);
      }
    }
  }

  /** Column k of the child is a foreign key to column p of the parent. */
  ghost predicate Refers(f: E.Fixture, child: Generated, parent: Generated, cfks: Assignments, k: nat, p: nat) {
    && k < |child.columns| && p < |parent.columns| && child.columns[k] in cfks
    && var ref := cfks[child.columns[k]].0;
       && E.ParentIdColumn(f, ref.to).Some? && E.ParentTable(ref.to) == parent.name
       && E.ParentColumnName(ref.to) == parent.columns[p]
  }

  /** Both tables hold what is generated for them, over int64 ordinals. */
  ghost predicate BothHold(w: E.World, f: E.Fixture, counts: RowCounts, child: Generated, parent: Generated,
                           cfks: Assignments, pfks: Assignments)
    reads child.rows, parent.rows
  {
    Holds(w, f, child, cfks, counts) && Holds(w, f, parent, pfks, counts) && Int64Assigned(cfks) && Int64Assigned(pfks)
  }

  lemma ParentRowIs(w: E.World, f: E.Fixture, counts: RowCounts, child: Generated, parent: Generated,
                    cfks: Assignments, pfks: Assignments, k: nat, p: nat, q: nat)
    requires BothHold(w, f, counts, child, parent, cfks, pfks) && Refers(f, child, parent, cfks, k, p)
    requires q < parent.rows.Length0
    ensures var held, to := HeldBy(pfks, counts, parent.columns[p]), cfks[child.columns[k]].0.to;
            Keys.HasCell(held, q) && parent.rows[q, p] == Keys.ParentCell(w, f, to, held, q)
  {
    assert parent.rows[q, p] == CellOf(w, f, parent.name, pfks, counts, parent.columns[p], q);
  }

  lemma ParentRowsHave(w: E.World, f: E.Fixture, counts: RowCounts, child: Generated, parent: Generated,
                       cfks: Assignments, pfks: Assignments, k: nat, p: nat)
    requires BothHold(w, f, counts, child, parent, cfks, pfks) && Refers(f, child, parent, cfks, k, p)
    ensures O.HasCells(HeldBy(pfks, counts, parent.columns[p]), parent.rows.Length0)
  {
    forall q: nat | q < parent.rows.Length0
      ensures Keys.HasCell(HeldBy(pfks, counts, parent.columns[p]), q)
    {
      ParentRowIs(w, f, counts, child, parent, cfks, pfks, k, p, q);
    }
  }

  lemma ChildRowIs(w: E.World, f: E.Fixture, counts: RowCounts, child: Generated, parent: Generated,
                   cfks: Assignments, pfks: Assignments, k: nat, p: nat, o: nat)
    requires BothHold(w, f, counts, child, parent, cfks, pfks) && Refers(f, child, parent, cfks, k, p)
    requires o < child.rows.Length0
    ensures var (ref, fk) := cfks[child.columns[k]];
            && |fk| == child.rows.Length0 && 0 <= fk[o] <= MAX_INT64
            && child.rows[o, k] == E.ParentIdValue(w, f, ref.to, fk[o], parent.rows.Length0)
  {
    assert child.rows[o, k] == CellOf(w, f, child.name, cfks, counts, child.columns[k], o);
  }

  /** A child row whose ordinal is a parent's holds, in the generated tables themselves, what
      that parent's row holds, exactly when the parent's cell is its children's key: for every
      parent column, one that is a foreign key itself included. */
  lemma ChildRowResolvesIff(w: E.World, f: E.Fixture, counts: RowCounts, child: Generated, parent: Generated,
                            cfks: Assignments, pfks: Assignments, k: nat, p: nat, o: nat)
    requires BothHold(w, f, counts, child, parent, cfks, pfks) && Refers(f, child, parent, cfks, k, p)
    requires o < child.rows.Length0 && o < |cfks[child.columns[k]].1|
    requires 0 <= cfks[child.columns[k]].1[o] < parent.rows.Length0
    ensures var (ref, fk) := cfks[child.columns[k]];
            var held := HeldBy(pfks, counts, parent.columns[p]);
            && Keys.HasCell(held, fk[o])
            && (child.rows[o, k] == parent.rows[fk[o], p] <==> Keys.ParentHolds(w, f, ref.to, held, fk[o]))
  {
    var (ref, fk) := cfks[child.columns[k]];
    ParentRowIs(w, f, counts, child, parent, cfks, pfks, k, p, fk[o]);
    ChildRowIs(w, f, counts, child, parent, cfks, pfks, k, p, o);
    Keys.ChildKeyMatchesIff(w, f, ref.to, HeldBy(pfks, counts, parent.columns[p]), fk[o], parent.rows.Length0);
  }

  /** Every row of the foreign key that is assigned to a parent holds what that parent's row holds. */
  ghost predicate RowsResolve(child: Generated, parent: Generated, fk: seq<int>, k: nat, p: nat)
    requires k < child.rows.Length1 && p < parent.rows.Length1
    requires |fk| == child.rows.Length0 && forall o :: 0 <= o < |fk| ==> fk[o] >= 0
    reads child.rows, parent.rows
  {
    forall o: nat :: o < |fk| && fk[o] < parent.rows.Length0 ==> child.rows[o, k] == parent.rows[fk[o], p]
  }

  /** Every parent that the rows are assigned to holds its children's key. */
  ghost predicate AssignedHold(w: E.World, f: E.Fixture, to: string, held: Keys.Held, fk: seq<int>, parentN: int)
    requires E.ParentIdColumn(f, to).Some? && D.Reached(held, fk, parentN)
  {
    forall o: nat :: o < |fk| && fk[o] < parentN ==> Keys.ParentHolds(w, f, to, held, fk[o])
  }

  ghost predicate AssignedAlwaysHold(w: E.World, f: E.Fixture, to: string, held: Keys.Held, fk: seq<int>, parentN: int)
    requires E.ParentIdColumn(f, to).Some? && D.Reached(held, fk, parentN)
  {
    forall o: nat :: o < |fk| && fk[o] < parentN ==> D.AlwaysHolds(w, f, to, held, fk[o])
  }

  lemma AssignedReached(w: E.World, f: E.Fixture, counts: RowCounts, child: Generated, parent: Generated,
                        cfks: Assignments, pfks: Assignments, k: nat, p: nat)
    requires BothHold(w, f, counts, child, parent, cfks, pfks) && Refers(f, child, parent, cfks, k, p)
    ensures var fk := cfks[child.columns[k]].1;
            && |fk| == child.rows.Length0 && (forall o :: 0 <= o < |fk| ==> 0 <= fk[o] <= MAX_INT64)
            && D.Reached(HeldBy(pfks, counts, parent.columns[p]), fk, parent.rows.Length0)
  {
    var fk := cfks[child.columns[k]].1;
    ParentRowsHave(w, f, counts, child, parent, cfks, pfks, k, p);
    forall o | 0 <= o < |fk|
      ensures 0 <= fk[o] <= MAX_INT64
    {
      ChildRowIs(w, f, counts, child, parent, cfks, pfks, k, p, o);
    }
  }

  /** Over a whole generated reference: all its rows resolve if and only if every assigned
      parent's cell is its children's key; and they do in every run when the fixture alone
      says that those parents always hold their keys. */
  lemma ReferenceResolvesIff(w: E.World, f: E.Fixture, counts: RowCounts, child: Generated, parent: Generated,
                             cfks: Assignments, pfks: Assignments, k: nat, p: nat)
    requires BothHold(w, f, counts, child, parent, cfks, pfks) && Refers(f, child, parent, cfks, k, p)
    ensures var (ref, fk) := cfks[child.columns[k]];
            var held, n := HeldBy(pfks, counts, parent.columns[p]), parent.rows.Length0;
            && |fk| == child.rows.Length0 && (forall o :: 0 <= o < |fk| ==> fk[o] >= 0) && D.Reached(held, fk, n)
            && (RowsResolve(child, parent, fk, k, p) <==> AssignedHold(w, f, ref.to, held, fk, n))
            && (D.Words(w.draws) && AssignedAlwaysHold(w, f, ref.to, held, fk, n) ==>
                  RowsResolve(child, parent, fk, k, p))
  {
    var (ref, fk) := cfks[child.columns[k]];
    var held, n := HeldBy(pfks, counts, parent.columns[p]), parent.rows.Length0;
    AssignedReached(w, f, counts, child, parent, cfks, pfks, k, p);
    forall o: nat | o < |fk| && fk[o] < n
      ensures child.rows[o, k] == parent.rows[fk[o], p] <==> Keys.ParentHolds(w, f, ref.to, held, fk[o])
      ensures D.Words(w.draws) && D.AlwaysHolds(w, f, ref.to, held, fk[o]) ==>
                Keys.ParentHolds(w, f, ref.to, held, fk[o])
    {
      ChildRowResolvesIff(w, f, counts, child, parent, cfks, pfks, k, p, o);
      if D.Words(w.draws) && D.AlwaysHolds(w, f, ref.to, held, fk[o]) {
        D.AlwaysMeansDrawn(w, f, ref.to, held, fk[o], w.draws);
        assert w.(draws := w.draws) == w;
      }
    }
  }

  /** A shared primary key of numbers from 5 over one of numbers from 1: the child of the first
      parent row holds 5, and that row holds 1. */
  lemma SharedKeyDangles(w: E.World, f: E.Fixture, counts: RowCounts, child: Generated, parent: Generated,
                         cfks: Assignments, pfks: Assignments, k: nat, p: nat, o: nat)
    requires BothHold(w, f, counts, child, parent, cfks, pfks) && Refers(f, child, parent, cfks, k, p)
    requires parent.columns[p] in pfks && o < child.rows.Length0 && 0 < parent.rows.Length0
    requires var (ref, fk) := cfks[child.columns[k]];
             var (up, pk) := pfks[parent.columns[p]];
             && o < |fk| && fk[o] == 0 && 0 < |pk| && pk[0] == 0 && E.ParentIdColumn(f, up.to).Some?
             && var c, g := E.ParentIdColumn(f, ref.to).value, E.ParentIdColumn(f, up.to).value;
                && IsNumber(c) && IsNumber(g) && NumericBounds(c) == Some((5, 90)) && NumericBounds(g) == Some((1, 100))
    ensures child.rows[o, k] == Int(5) && parent.rows[0, p] == Int(1)
  {
    ParentRowIs(w, f, counts, child, parent, cfks, pfks, k, p, 0);
    ChildRowIs(w, f, counts, child, parent, cfks, pfks, k, p, o);
    Keys.BorrowedKeyCanDangle(w, f, cfks[child.columns[k]].0.to, HeldBy(pfks, counts, parent.columns[p]),
                              parent.rows.Length0);
  }

  // ----- orphans between generated tables -----

  /** Some row of the parent table holds what row o of the child holds. */
  ghost predicate FindsParent(child: Generated, parent: Generated, k: nat, p: nat, o: nat)
    requires k < child.rows.Length1 && p < parent.rows.Length1 && o < child.rows.Length0
    reads child.rows, parent.rows
  {
    exists q: nat :: q < parent.rows.Length0 && child.rows[o, k] == parent.rows[q, p]
  }

  /** Any row of a foreign key, a deliberate orphan's as well, finds a parent in the generated
      tables exactly when its ordinal resolves. */
  lemma FindsParentIff(w: E.World, f: E.Fixture, counts: RowCounts, child: Generated, parent: Generated,
                       cfks: Assignments, pfks: Assignments, k: nat, p: nat, o: nat)
    requires BothHold(w, f, counts, child, parent, cfks, pfks) && Refers(f, child, parent, cfks, k, p)
    requires o < child.rows.Length0
    ensures var (ref, fk) := cfks[child.columns[k]];
            var held, n := HeldBy(pfks, counts, parent.columns[p]), parent.rows.Length0;
            && |fk| == child.rows.Length0 && 0 <= fk[o] <= MAX_INT64 && O.HasCells(held, n)
            && (FindsParent(child, parent, k, p, o) <==> O.Resolves(w, f, ref.to, held, fk[o], n))
  {
    var (ref, fk) := cfks[child.columns[k]];
    var held, n := HeldBy(pfks, counts, parent.columns[p]), parent.rows.Length0;
    ParentRowsHave(w, f, counts, child, parent, cfks, pfks, k, p);
    ChildRowIs(w, f, counts, child, parent, cfks, pfks, k, p, o);
    forall q: nat | q < n
      ensures parent.rows[q, p] == Keys.ParentCell(w, f, ref.to, held, q)
    {
      ParentRowIs(w, f, counts, child, parent, cfks, pfks, k, p, q);
    }
    SameSearch(w, f, child, parent, ref.to, held, fk[o], k, p, o);
  }

  lemma SameSearch(w: E.World, f: E.Fixture, child: Generated, parent: Generated, to: string, held: Keys.Held, ord: nat,
                   k: nat, p: nat, o: nat)
    requires k < child.rows.Length1 && p < parent.rows.Length1 && o < child.rows.Length0
    requires E.ParentIdColumn(f, to).Some? && O.HasCells(held, parent.rows.Length0)
    requires child.rows[o, k] == E.ParentIdValue(w, f, to, ord, parent.rows.Length0)
    requires forall q: nat :: q < parent.rows.Length0 ==> parent.rows[q, p] == Keys.ParentCell(w, f, to, held, q)
    ensures FindsParent(child, parent, k, p, o) <==> O.Resolves(w, f, to, held, ord, parent.rows.Length0)
  {
    if FindsParent(child, parent, k, p, o) {
      var q: nat :| q < parent.rows.Length0 && child.rows[o, k] == parent.rows[q, p];
      assert Keys.ParentCell(w, f, to, held, q) == E.ParentIdValue(w, f, to, ord, parent.rows.Length0);
    }
    if O.Resolves(w, f, to, held, ord, parent.rows.Length0) {
      var q: nat :| q < parent.rows.Length0
                    && Keys.ParentCell(w, f, to, held, q) == E.ParentIdValue(w, f, to, ord, parent.rows.Length0);
      assert child.rows[o, k] == parent.rows[q, p];
    }
  }

  /** A run draws 64-bit words. */
  lemma RunDrawsWords(run: Run)
    ensures D.Words(WorldOf(run).draws)
  {
    forall table: string, column: string, ord: nat, k: nat
      ensures WorldOf(run).draws(table, column, ord, k) < TWO_64
    {
      NumberDrawn(CellId(run, table, column, ord), k);
    }
  }

  /** The cells of one column. */
  function ColumnOf(g: Generated, k: nat): (vs: seq<Value>)
    requires k < g.rows.Length1
    reads g.rows
    ensures |vs| == g.rows.Length0 && forall o :: 0 <= o < |vs| ==> vs[o] == g.rows[o, k]
  {
    seq(g.rows.Length0, o requires 0 <= o < g.rows.Length0 reads g.rows => g.rows[o, k])
  }

  /** The key of each group's ordinal fills exactly as many cells as the allocator gives the group. */
  ghost predicate Filled(w: E.World, f: E.Fixture, to: string, cells: seq<Value>, sizes: seq<int>, orphans: int,
                         fo: F.Fanout, parentN: int)
    requires 1 <= parentN == |sizes| && 0 <= orphans && |cells| >= 1
  {
    forall p: nat :: p < parentN ==>
      multiset(cells)[E.ParentIdValue(w, f, to, F.GroupOrdinal(p, orphans, parentN), parentN)]
      == F.GroupRows(sizes, fo, parentN, |cells|, p)
  }

  lemma ColumnIsKeys(w: E.World, f: E.Fixture, counts: RowCounts, child: Generated, cfks: Assignments, k: nat)
    requires Holds(w, f, child, cfks, counts) && k < |child.columns| && child.columns[k] in cfks
    ensures var (ref, fk) := cfks[child.columns[k]];
            && (forall i :: 0 <= i < |fk| ==> fk[i] >= 0)
            && ColumnOf(child, k) == Keys.ChildKeys(w, f, ref.to, fk, RowsOf(counts, E.ParentTable(ref.to)))
  {
    var (ref, fk) := cfks[child.columns[k]];
    forall o | 0 <= o < child.rows.Length0
      ensures child.rows[o, k] == E.ParentIdValue(w, f, ref.to, fk[o], RowsOf(counts, E.ParentTable(ref.to)))
    {
      assert child.rows[o, k] == CellOf(w, f, child.name, cfks, counts, child.columns[k], o);
    }
  }

  /** The profiled fan-out stands in the generated child table: for the group sizes the
      allocator targets, the key of each group's ordinal fills exactly that many cells of
      the foreign-key column. */
  lemma FanoutReproduced(w: E.World, f: E.Fixture, counts: RowCounts, child: Generated, cfks: Assignments, k: nat,
                         ref: E.Reference, parentN: nat)
    returns (sizes: seq<int>, orphans: int)
    requires Holds(w, f, child, cfks, counts) && k < |child.columns| && child.rows.Length0 >= 1
    requires child.columns[k] in cfks && cfks[child.columns[k]].0 == ref
    requires parentN == RowsOf(counts, E.ParentTable(ref.to)) && 1 <= parentN && 2 * parentN <= MAX_INT64
    requires ref.shape.fanout.Some?
    requires E.ParentIdColumn(f, ref.to).Some? && TellsApart(w.lib, E.ParentIdColumn(f, ref.to).value, 2 * parentN)
    ensures F.TargetCountsOf(sizes, w.pow, ref.shape.fanout.value, parentN, child.rows.Length0, child.declaredRows)
    ensures 0 <= orphans <= parentN == |sizes|
    ensures Filled(w, f, ref.to, ColumnOf(child, k), sizes, orphans, ref.shape.fanout.value, parentN)
    ensures F.FanoutFacts(ref.shape.fanout.value, child.rows.Length0, parentN).mean >= 1.0 ==>
              forall p: nat :: p < parentN ==>
                F.GroupRows(sizes, ref.shape.fanout.value, parentN, child.rows.Length0, p) == sizes[p]
  {
    var fk, childN := cfks[child.columns[k]].1, child.rows.Length0;
    var fo, of := ref.shape.fanout.value, ref.shape.orphanFraction;
    sizes, orphans :| F.FanoutAssignment(fk, sizes, orphans, w.pow, fo, of, childN, parentN, child.declaredRows);
    if F.FanoutFacts(fo, childN, parentN).mean >= 1.0 {
      F.MeanOfOneReachesTotal(fo, parentN, childN);
    }
    F.AssignmentFollowsCounts(fk, sizes, orphans, w.pow, fo, of, childN, parentN, child.declaredRows);
    O.FanoutReachesCells(w, f, ref.to, Keys.Own, fk, sizes, orphans, fo, of, childN, parentN, child.declaredRows);
    ColumnIsKeys(w, f, counts, child, cfks, k);
  }

  /** The recorded orphans stand in the generated tables: where keys are told apart and every
      parent row holds its children's key, exactly the rows of the orphan groups, which are the
      first, find no parent. */
  lemma OrphansReproduced(w: E.World, f: E.Fixture, counts: RowCounts, child: Generated, parent: Generated,
                          cfks: Assignments, pfks: Assignments, k: nat, p: nat)
    returns (sizes: seq<int>, orphans: int)
    requires BothHold(w, f, counts, child, parent, cfks, pfks) && Refers(f, child, parent, cfks, k, p)
    requires child.rows.Length0 >= 1 && 1 <= parent.rows.Length0 && 2 * parent.rows.Length0 <= MAX_INT64
    requires cfks[child.columns[k]].0.shape.fanout.Some?
    requires var ref := cfks[child.columns[k]].0;
             && TellsApart(w.lib, E.ParentIdColumn(f, ref.to).value, 2 * parent.rows.Length0)
             && O.AllHold(w, f, ref.to, HeldBy(pfks, counts, parent.columns[p]), parent.rows.Length0)
    ensures var ref, n := cfks[child.columns[k]].0, parent.rows.Length0;
            && F.TargetCountsOf(sizes, w.pow, ref.shape.fanout.value, n, child.rows.Length0, child.declaredRows)
            && 0 <= orphans <= n == |sizes|
            && F.OrphanGroups(sizes, F.Populated(ref.shape.fanout.value, n, child.rows.Length0),
                              F.OrphanRowsWanted(ref.shape.orphanFraction, child.rows.Length0), orphans)
    ensures forall o: nat :: o < child.rows.Length0 ==>
              (FindsParent(child, parent, k, p, o) <==> o >= Sums.Sum(sizes[..orphans]))
  {
    var (ref, fk) := cfks[child.columns[k]];
    var held, n, childN := HeldBy(pfks, counts, parent.columns[p]), parent.rows.Length0, child.rows.Length0;
    var fo, of := ref.shape.fanout.value, ref.shape.orphanFraction;
    sizes, orphans :| F.FanoutAssignment(fk, sizes, orphans, w.pow, fo, of, childN, n, child.declaredRows);
    F.AssignmentOrphanRows(fk, sizes, orphans, w.pow, fo, of, childN, n, child.declaredRows);
    O.RowsMiss(w, f, ref.to, held, fk, n, Sums.Sum(sizes[..orphans]));
    forall o: nat | o < childN
      ensures FindsParent(child, parent, k, p, o) <==> o >= Sums.Sum(sizes[..orphans])
    {
      FindsParentIff(w, f, counts, child, parent, cfks, pfks, k, p, o);
    }
  }
}
