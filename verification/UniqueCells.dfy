/** Whether the rows of a generated unique column differ (internal/hydrate/engine.go): which
    rows meet, for every type, under widths, CHECK bounds, domains and NULLs. */
module UniqueCells {
  import opened Cells
  import opened CheckDomains
  import opened CheckSound
  import opened Columns
  import D = EveryDraw
  import E = Engine
  import opened FiniteSets
  import G = Generation
  import opened Holders
  import K = Keys
  import opened Numbers
  import opened Order
  import opened Rendering
  import opened Values
  import opened Wrappers

  /** A unique column that is drawn from no texts. */
  predicate FromOrdinals(w: E.World, types: Types, t: E.Table, column: string)
    requires column in t.columns
  {
    var c := t.columns[column];
    c.unique && K.DrawnTexts(types, c, E.DomainOn(w, t, column)) == []
  }

  /** Two different integers that clamping into the bounds makes one: both beyond the same
      bound, or only one integer, or none, is left between the bounds. */
  predicate BoundsMeet(dom: Domain, a: int, b: int) {
    || (dom.min.Some? && a <= Trunc(dom.min.value) && b <= Trunc(dom.min.value))
    || (dom.max.Some? && a >= Trunc(dom.max.value) && b >= Trunc(dom.max.value))
    || (dom.min.Some? && dom.max.Some?
        && (dom.min.value > dom.max.value || Trunc(dom.min.value) == Trunc(dom.max.value)))
  }

  lemma BoundsMeetIff(dom: Domain, a: int, b: int)
    requires a != b
    ensures ClampNumeric(Int(a), dom.min, dom.max) == ClampNumeric(Int(b), dom.min, dom.max) <==> BoundsMeet(dom, a, b)
  {
    ClampedInt(dom, a);
    ClampedInt(dom, b);
  }

  /** Two rows of the column hold one value: numbers when the bounds make them one, and any
      other value when the two ordinals have one holder. */
  predicate RowsMeet(w: E.World, types: Types, t: E.Table, column: string, i: nat, j: nat)
    requires column in t.columns
  {
    var d := BaseColumn(types, t.columns[column]);
    if IsNumber(d) then
      BoundsMeet(E.DomainOn(w, t, column), NumericInRange(d, i, true), NumericInRange(d, j, true))
    else Holder(w.lib, d, i) == Holder(w.lib, d, j)
  }

  lemma RowsMeetIff(w: E.World, types: Types, name: string, t: E.Table, column: string, i: nat, j: nat)
    requires column in t.columns && FromOrdinals(w, types, t, column) && i < j <= MAX_INT64
    requires !K.NullAt(t.columns[column], i) && !K.NullAt(t.columns[column], j)
    ensures E.Cell(w, types, name, t, column, i) == E.Cell(w, types, name, t, column, j)
            <==> RowsMeet(w, types, t, column, i, j)
  {
    var c, d, dom := t.columns[column], BaseColumn(types, t.columns[column]), E.DomainOn(w, t, column);
    K.UniqueGenerated(w, types, name, column, c, i);
    K.UniqueGenerated(w, types, name, column, c, j);
    SameValueIff(w.lib, d, i, j);
    if IsNumber(d) {
      NumberIff(d, i, j);
      BoundsMeetIff(dom, NumericInRange(d, i, true), NumericInRange(d, j, true));
    }
  }

  lemma NullCell(w: E.World, types: Types, name: string, t: E.Table, column: string, i: nat)
    requires column in t.columns
    ensures E.Cell(w, types, name, t, column, i) == Null <==> K.NullAt(t.columns[column], i)
  {
    K.NullExactly(w, types, name, column, t.columns[column], i);
  }

  // ----- generated tables -----

  /** No two rows hold one value, NULLs aside. */
  ghost predicate ColumnUnique(g: G.Generated, k: nat)
    requires k < g.rows.Length1
    reads g.rows
  {
    forall i: nat, j: nat ::
      i < j < g.rows.Length0 && g.rows[i, k] != Null && g.rows[j, k] != Null ==> g.rows[i, k] != g.rows[j, k]
  }

  ghost predicate NoneMeet(w: E.World, types: Types, t: E.Table, column: string, n: nat)
    requires column in t.columns
  {
    forall i: nat, j: nat ::
      i < j < n && !K.NullAt(t.columns[column], i) && !K.NullAt(t.columns[column], j) ==>
        !RowsMeet(w, types, t, column, i, j)
  }

  /** The rows of a generated unique column differ if and only if no two of its ordinals that
      are not NULL meet. */
  lemma ColumnUniqueIff(w: E.World, f: E.Fixture, g: G.Generated, fks: G.Assignments, counts: G.RowCounts, k: nat)
    requires G.Holds(w, f, g, fks, counts) && k < |g.columns| && g.columns[k] !in fks
    requires g.columns[k] in f.tables[g.name].columns && FromOrdinals(w, f.types, f.tables[g.name], g.columns[k])
    requires g.rows.Length0 <= MAX_INT64
    ensures ColumnUnique(g, k) <==> NoneMeet(w, f.types, f.tables[g.name], g.columns[k], g.rows.Length0)
  {
    if NoneMeet(w, f.types, f.tables[g.name], g.columns[k], g.rows.Length0) {
      forall i: nat, j: nat | i < j < g.rows.Length0 && g.rows[i, k] != Null && g.rows[j, k] != Null
        ensures g.rows[i, k] != g.rows[j, k]
      {
        HeldRowsMeet(w, f, g, fks, counts, k, i, j);
      }
    } else {
      var c := f.tables[g.name].columns[g.columns[k]];
      var i: nat, j: nat :| i < j < g.rows.Length0 && !K.NullAt(c, i) && !K.NullAt(c, j)
                            && RowsMeet(w, f.types, f.tables[g.name], g.columns[k], i, j);
      HeldRowsMeet(w, f, g, fks, counts, k, i, j);
    }
  }

  lemma HeldRowsMeet(w: E.World, f: E.Fixture, g: G.Generated, fks: G.Assignments, counts: G.RowCounts,
                     k: nat, i: nat, j: nat)
    requires G.Holds(w, f, g, fks, counts) && k < |g.columns| && g.columns[k] !in fks
    requires g.columns[k] in f.tables[g.name].columns && FromOrdinals(w, f.types, f.tables[g.name], g.columns[k])
    requires i < j < g.rows.Length0 <= MAX_INT64
    ensures var c := f.tables[g.name].columns[g.columns[k]];
            && (g.rows[i, k] == Null <==> K.NullAt(c, i)) && (g.rows[j, k] == Null <==> K.NullAt(c, j))
            && (!K.NullAt(c, i) && !K.NullAt(c, j) ==>
                  (g.rows[i, k] == g.rows[j, k] <==> RowsMeet(w, f.types, f.tables[g.name], g.columns[k], i, j)))
  {
    HeldRow(w, f, g, fks, counts, k, i);
    HeldRow(w, f, g, fks, counts, k, j);
    if g.rows[i, k] != Null && g.rows[j, k] != Null {
      RowsMeetIff(w, f.types, g.name, f.tables[g.name], g.columns[k], i, j);
    }
  }

  lemma HeldRow(w: E.World, f: E.Fixture, g: G.Generated, fks: G.Assignments, counts: G.RowCounts, k: nat, o: nat)
    requires G.Holds(w, f, g, fks, counts) && k < |g.columns| && g.columns[k] !in fks && o < g.rows.Length0
    requires g.columns[k] in f.tables[g.name].columns && FromOrdinals(w, f.types, f.tables[g.name], g.columns[k])
    ensures g.rows[o, k] == E.Cell(w, f.types, g.name, f.tables[g.name], g.columns[k], o)
    ensures g.rows[o, k] == Null <==> K.NullAt(f.tables[g.name].columns[g.columns[k]], o)
  {
    assert g.rows[o, k] == G.CellOf(w, f, g.name, fks, counts, g.columns[k], o);
    NullCell(w, f.types, g.name, f.tables[g.name], g.columns[k], o);
  }

  ghost predicate NullFree(c: Column, n: nat) {
    forall i: nat :: i < n ==> !K.NullAt(c, i)
  }

  /** Without NULLs, a column that is no number is unique exactly as far as its rendering
      tells its rows apart. */
  lemma RenderedUniqueIff(w: E.World, f: E.Fixture, g: G.Generated, fks: G.Assignments, counts: G.RowCounts, k: nat)
    requires G.Holds(w, f, g, fks, counts) && k < |g.columns| && g.columns[k] !in fks
    requires g.columns[k] in f.tables[g.name].columns && FromOrdinals(w, f.types, f.tables[g.name], g.columns[k])
    requires g.rows.Length0 <= MAX_INT64
    requires var c := f.tables[g.name].columns[g.columns[k]];
             NullFree(c, g.rows.Length0) && !IsNumber(BaseColumn(f.types, c))
    ensures ColumnUnique(g, k)
            <==> TellsApart(w.lib, BaseColumn(f.types, f.tables[g.name].columns[g.columns[k]]), g.rows.Length0)
  {
    ColumnUniqueIff(w, f, g, fks, counts, k);
    NoneMeetIff(w, f.types, f.tables[g.name], g.columns[k], g.rows.Length0);
  }

  lemma NoneMeetIff(w: E.World, types: Types, t: E.Table, column: string, n: nat)
    requires column in t.columns && n <= MAX_INT64
    requires NullFree(t.columns[column], n) && !IsNumber(BaseColumn(types, t.columns[column]))
    ensures NoneMeet(w, types, t, column, n) <==> TellsApart(w.lib, BaseColumn(types, t.columns[column]), n)
  {
    TellsApartIff(w.lib, BaseColumn(types, t.columns[column]), n);
    forall i: nat, j: nat | i < j < n
      ensures RowsMeet(w, types, t, column, i, j) <==> SameRow(w, types, t.columns[column], i, j)
    {
      RenderedRowsMeet(w, types, t, column, i, j);
    }
    SameRowsApart(w, types, t.columns[column], n);
  }

  predicate SameRow(w: E.World, types: Types, c: Column, i: nat, j: nat) {
    FakeValue(w.lib, BaseColumn(types, c), i, true) == FakeValue(w.lib, BaseColumn(types, c), j, true)
  }

  lemma RenderedRowsMeet(w: E.World, types: Types, t: E.Table, column: string, i: nat, j: nat)
    requires column in t.columns && i < j <= MAX_INT64
    requires !IsNumber(BaseColumn(types, t.columns[column]))
    ensures RowsMeet(w, types, t, column, i, j) <==> SameRow(w, types, t.columns[column], i, j)
  {
    SameValueIff(w.lib, BaseColumn(types, t.columns[column]), i, j);
  }

  lemma SameRowsApart(w: E.World, types: Types, c: Column, n: nat)
    ensures AllApart(w.lib, BaseColumn(types, c), n)
            <==> forall i: nat, j: nat :: i < j < n ==> !SameRow(w, types, c, i, j)
  {
    if AllApart(w.lib, BaseColumn(types, c), n) {
    } else {
      var i: nat, j: nat :| i < j < n
                            && FakeValue(w.lib, BaseColumn(types, c), i, true)
                               == FakeValue(w.lib, BaseColumn(types, c), j, true);
      assert SameRow(w, types, c, i, j);
    }
  }

  /** The bounds make no two numbers of rows that are not NULL one. */
  ghost predicate NumbersApart(c: Column, dom: Domain, n: nat) {
    forall i: nat, j: nat :: i < j < n && !K.NullAt(c, i) && !K.NullAt(c, j) ==>
                               !BoundsMeet(dom, NumericInRange(c, i, true), NumericInRange(c, j, true))
  }

  /** A column of numbers is unique exactly when the CHECK bounds make no two of its rows that
      are not NULL one, wherever its range wraps. */
  lemma NumbersApartIff(w: E.World, f: E.Fixture, g: G.Generated, fks: G.Assignments, counts: G.RowCounts, k: nat)
    requires G.Holds(w, f, g, fks, counts) && k < |g.columns| && g.columns[k] !in fks
    requires g.columns[k] in f.tables[g.name].columns && FromOrdinals(w, f.types, f.tables[g.name], g.columns[k])
    requires g.rows.Length0 <= MAX_INT64 && IsNumber(BaseColumn(f.types, f.tables[g.name].columns[g.columns[k]]))
    ensures var c, dom := f.tables[g.name].columns[g.columns[k]], E.DomainOn(w, f.tables[g.name], g.columns[k]);
            ColumnUnique(g, k) <==> NumbersApart(c, dom, g.rows.Length0)
  {
    ColumnUniqueIff(w, f, g, fks, counts, k);
    NoNumbersMeet(w, f.types, f.tables[g.name], g.columns[k], g.rows.Length0);
  }

  lemma NoNumbersMeet(w: E.World, types: Types, t: E.Table, column: string, n: nat)
    requires column in t.columns && IsNumber(BaseColumn(types, t.columns[column]))
    ensures NoneMeet(w, types, t, column, n) <==> NumbersApart(t.columns[column], E.DomainOn(w, t, column), n)
  {
    var c, dom := t.columns[column], E.DomainOn(w, t, column);
    if NumbersApart(c, dom, n) {
      forall i: nat, j: nat | i < j < n && !K.NullAt(c, i) && !K.NullAt(c, j)
        ensures !RowsMeet(w, types, t, column, i, j)
      {
        NumbersMeetIn(w, types, t, column, i, j);
      }
    } else {
      var i: nat, j: nat :| i < j < n && !K.NullAt(c, i) && !K.NullAt(c, j)
                            && BoundsMeet(dom, NumericInRange(c, i, true), NumericInRange(c, j, true));
      NumbersMeetIn(w, types, t, column, i, j);
    }
  }

  lemma NumbersMeetIn(w: E.World, types: Types, t: E.Table, column: string, i: nat, j: nat)
    requires column in t.columns && IsNumber(BaseColumn(types, t.columns[column]))
    ensures var c := t.columns[column];
            RowsMeet(w, types, t, column, i, j)
            <==> BoundsMeet(E.DomainOn(w, t, column), NumericInRange(c, i, true), NumericInRange(c, j, true))
  {
    var c := t.columns[column];
    K.NumberIgnoresType(c, ResolveType(types, c.typ), i);
    K.NumberIgnoresType(c, ResolveType(types, c.typ), j);
    NumbersMeetAt(w, types, t, column, i, j);
  }

  /** Without NULLs, a column of two numbers or more that count up is unique exactly when its
      CHECK bounds leave every number alone: a bound that moves one makes two rows meet. */
  lemma NumbersUniqueIff(w: E.World, f: E.Fixture, g: G.Generated, fks: G.Assignments, counts: G.RowCounts, k: nat)
    requires G.Holds(w, f, g, fks, counts) && k < |g.columns| && g.columns[k] !in fks
    requires g.columns[k] in f.tables[g.name].columns && FromOrdinals(w, f.types, f.tables[g.name], g.columns[k])
    requires 2 <= g.rows.Length0 <= MAX_INT64
    requires var c := f.tables[g.name].columns[g.columns[k]];
             NullFree(c, g.rows.Length0) && K.CountsUp(BaseColumn(f.types, c), g.rows.Length0)
    ensures var dom := E.DomainOn(w, f.tables[g.name], g.columns[k]);
            var lo := K.FirstKey(f.tables[g.name].columns[g.columns[k]]);
            ColumnUnique(g, k) <==> forall i: nat :: i < g.rows.Length0 ==> K.KeyKept(dom, lo, i)
  {
    var c, dom := f.tables[g.name].columns[g.columns[k]], E.DomainOn(w, f.tables[g.name], g.columns[k]);
    ColumnUniqueIff(w, f, g, fks, counts, k);
    NumbersMeetIff(w, f.types, f.tables[g.name], g.columns[k], g.rows.Length0);
    K.UniqueSurvivesBoundsIff(dom, K.FirstKey(c), g.rows.Length0);
  }

  lemma NumbersMeetIff(w: E.World, types: Types, t: E.Table, column: string, n: nat)
    requires column in t.columns && NullFree(t.columns[column], n)
    requires K.CountsUp(BaseColumn(types, t.columns[column]), n)
    ensures NoneMeet(w, types, t, column, n)
            <==> K.AllDistinct(E.DomainOn(w, t, column), K.FirstKey(t.columns[column]), n)
  {
    var dom, lo := E.DomainOn(w, t, column), K.FirstKey(t.columns[column]);
    if K.AllDistinct(dom, lo, n) {
      forall i: nat, j: nat | i < j < n
        ensures !RowsMeet(w, types, t, column, i, j)
      {
        assert K.ClampedKey(dom, lo, i) != K.ClampedKey(dom, lo, j);
        NumberRowsMeet(w, types, t, column, n, i, j);
      }
    } else {
      var i: nat, j: nat :| i < j < n && K.ClampedKey(dom, lo, i) == K.ClampedKey(dom, lo, j);
      MeetingNumbers(w, types, t, column, n, i, j);
    }
  }

  lemma MeetingNumbers(w: E.World, types: Types, t: E.Table, column: string, n: nat, i: nat, j: nat)
    requires column in t.columns && NullFree(t.columns[column], n)
    requires K.CountsUp(BaseColumn(types, t.columns[column]), n)
    requires i < j < n
    requires var dom, lo := E.DomainOn(w, t, column), K.FirstKey(t.columns[column]);
             K.ClampedKey(dom, lo, i) == K.ClampedKey(dom, lo, j)
    ensures !NoneMeet(w, types, t, column, n)
  {
    NumberRowsMeet(w, types, t, column, n, i, j);
  }

  lemma FirstKeyOfBase(types: Types, c: Column)
    ensures K.FirstKey(BaseColumn(types, c)) == K.FirstKey(c)
  {
  }

  lemma NumberRowsMeet(w: E.World, types: Types, t: E.Table, column: string, n: nat, i: nat, j: nat)
    requires column in t.columns && K.CountsUp(BaseColumn(types, t.columns[column]), n) && i < j < n
    ensures var dom, lo := E.DomainOn(w, t, column), K.FirstKey(t.columns[column]);
            RowsMeet(w, types, t, column, i, j) <==> K.ClampedKey(dom, lo, i) == K.ClampedKey(dom, lo, j)
  {
    var d := BaseColumn(types, t.columns[column]);
    FirstKeyOfBase(types, t.columns[column]);
    K.KeysCountUp(d, n, i);
    K.KeysCountUp(d, n, j);
    NumbersMeetAt(w, types, t, column, i, j);
    ClampsMeetIff(E.DomainOn(w, t, column), K.FirstKey(d), i, j);
  }

  lemma NumbersMeetAt(w: E.World, types: Types, t: E.Table, column: string, i: nat, j: nat)
    requires column in t.columns && IsNumber(BaseColumn(types, t.columns[column]))
    ensures var d := BaseColumn(types, t.columns[column]);
            RowsMeet(w, types, t, column, i, j)
            <==> BoundsMeet(E.DomainOn(w, t, column), NumericInRange(d, i, true), NumericInRange(d, j, true))
  {
  }

  lemma ClampsMeetIff(dom: Domain, lo: int, i: nat, j: nat)
    requires i != j
    ensures BoundsMeet(dom, lo + i, lo + j) <==> K.ClampedKey(dom, lo, i) == K.ClampedKey(dom, lo, j)
  {
    BoundsMeetIff(dom, lo + i, lo + j);
  }

  /** No two rows that are not NULL are a multiple of the cycle apart. */
  ghost predicate TimesApart(lib: Library, c: Column, n: nat) {
    forall i: nat, j: nat ::
      i < j < n && !K.NullAt(c, i) && !K.NullAt(c, j) ==> i % TimeCycle(lib, c) != j % TimeCycle(lib, c)
  }

  /** A unique timestamp column starts over after the nanoseconds of its range: two rows that are
      not NULL hold one time exactly when they are a multiple of that apart, and without NULLs
      some do as soon as there are more rows. */
  lemma TimestampsUniqueIff(w: E.World, f: E.Fixture, g: G.Generated, fks: G.Assignments, counts: G.RowCounts, k: nat)
    requires G.Holds(w, f, g, fks, counts) && k < |g.columns| && g.columns[k] !in fks
    requires g.columns[k] in f.tables[g.name].columns && FromOrdinals(w, f.types, f.tables[g.name], g.columns[k])
    requires g.rows.Length0 <= MAX_INT64
    requires var c := f.tables[g.name].columns[g.columns[k]];
             c.format == NoFormat && Categorize(ResolveType(f.types, c.typ)).Temporal?
    ensures var c := f.tables[g.name].columns[g.columns[k]];
            && (ColumnUnique(g, k) <==> TimesApart(w.lib, c, g.rows.Length0))
            && (NullFree(c, g.rows.Length0) ==> (ColumnUnique(g, k) <==> g.rows.Length0 <= TimeCycle(w.lib, c)))
  {
    var c := f.tables[g.name].columns[g.columns[k]];
    ColumnUniqueIff(w, f, g, fks, counts, k);
    NoTimesMeet(w, f.types, f.tables[g.name], g.columns[k], g.rows.Length0);
    if NullFree(c, g.rows.Length0) {
      TimesRoom(w.lib, c, g.rows.Length0);
    }
  }

  lemma NoTimesMeet(w: E.World, types: Types, t: E.Table, column: string, n: nat)
    requires column in t.columns && t.columns[column].format == NoFormat
    requires Categorize(ResolveType(types, t.columns[column].typ)).Temporal?
    ensures NoneMeet(w, types, t, column, n) <==> TimesApart(w.lib, t.columns[column], n)
  {
    var c := t.columns[column];
    if TimesApart(w.lib, c, n) {
      forall i: nat, j: nat | i < j < n && !K.NullAt(c, i) && !K.NullAt(c, j)
        ensures !RowsMeet(w, types, t, column, i, j)
      {
        TimesMeetAt(w, types, t, column, i, j);
      }
    } else {
      var i: nat, j: nat :| i < j < n && !K.NullAt(c, i) && !K.NullAt(c, j)
                            && i % TimeCycle(w.lib, c) == j % TimeCycle(w.lib, c);
      TimesMeetAt(w, types, t, column, i, j);
    }
  }

  lemma TimesMeetAt(w: E.World, types: Types, t: E.Table, column: string, i: nat, j: nat)
    requires column in t.columns && t.columns[column].format == NoFormat
    requires Categorize(ResolveType(types, t.columns[column].typ)).Temporal?
    ensures var c := t.columns[column];
            RowsMeet(w, types, t, column, i, j) <==> i % TimeCycle(w.lib, c) == j % TimeCycle(w.lib, c)
  {
    TimesAreNoNumbers(types, t.columns[column]);
    SameTimeCycle(w.lib, types, t.columns[column]);
    TimeHolder(w.lib, BaseColumn(types, t.columns[column]), i);
    TimeHolder(w.lib, BaseColumn(types, t.columns[column]), j);
  }

  lemma TimeHolder(lib: Library, d: Column, n: nat)
    requires d.format == NoFormat && Categorize(d.typ).Temporal?
    ensures Holder(lib, d, n) == n % TimeCycle(lib, d)
  {
    TimesAreNotCut(lib, Categorize(d.typ), d, n);
  }

  lemma TimesAreNoNumbers(types: Types, c: Column)
    requires Categorize(ResolveType(types, c.typ)).Temporal?
    ensures !IsNumber(BaseColumn(types, c))
  {
  }

  lemma SameTimeCycle(lib: Library, types: Types, c: Column)
    ensures TimeCycle(lib, BaseColumn(types, c)) == TimeCycle(lib, c)
  {
  }

  /** Without NULLs, the rows of one cycle are apart and no more. */
  lemma TimesRoom(lib: Library, c: Column, n: nat)
    requires NullFree(c, n)
    ensures TimesApart(lib, c, n) <==> n <= TimeCycle(lib, c)
  {
    var p := TimeCycle(lib, c);
    if n <= p {
      forall i: nat, j: nat | i < j < n
        ensures i % p != j % p
      {
        SmallModulus(i, p);
        SmallModulus(j, p);
      }
    } else {
      assert p % p == 0 && 0 % p == 0;
      assert !K.NullAt(c, 0) && !K.NullAt(c, p);
    }
  }

  lemma TimesAreNotCut(lib: Library, k: Category, d: Column, n: nat)
    requires d.format == NoFormat && Categorize(d.typ) == k && k.Temporal?
    ensures TemplateOf(d).None? && Cycle(lib, d) == Some(TimeCycle(lib, d)) && !Cut(lib, d, n)
  {
  }

  // ----- columns drawn from texts -----

  /** No two of the first n cells hold one value, NULLs aside. */
  ghost predicate CellsUnique(w: E.World, types: Types, name: string, t: E.Table, column: string, n: nat)
    requires column in t.columns
  {
    forall i: nat, j: nat ::
      i < j < n && E.Cell(w, types, name, t, column, i) != Null && E.Cell(w, types, name, t, column, j) != Null ==>
        E.Cell(w, types, name, t, column, i) != E.Cell(w, types, name, t, column, j)
  }

  /** The rows of a generated table are those cells. */
  lemma ColumnIsCells(w: E.World, f: E.Fixture, g: G.Generated, fks: G.Assignments, counts: G.RowCounts, k: nat)
    requires G.Holds(w, f, g, fks, counts) && k < |g.columns| && g.columns[k] !in fks
    requires g.columns[k] in f.tables[g.name].columns
    ensures ColumnUnique(g, k) <==> CellsUnique(w, f.types, g.name, f.tables[g.name], g.columns[k], g.rows.Length0)
  {
    forall o: nat | o < g.rows.Length0
      ensures g.rows[o, k] == E.Cell(w, f.types, g.name, f.tables[g.name], g.columns[k], o)
    {
      assert g.rows[o, k] == G.CellOf(w, f, g.name, fks, counts, g.columns[k], o);
    }
    SameCells(w, f.types, g, f.tables[g.name], k);
  }

  lemma SameCells(w: E.World, types: Types, g: G.Generated, t: E.Table, k: nat)
    requires k < g.rows.Length1 && k < |g.columns| && g.columns[k] in t.columns
    requires forall o: nat :: o < g.rows.Length0 ==> g.rows[o, k] == E.Cell(w, types, g.name, t, g.columns[k], o)
    ensures ColumnUnique(g, k) <==> CellsUnique(w, types, g.name, t, g.columns[k], g.rows.Length0)
  {
    if CellsUnique(w, types, g.name, t, g.columns[k], g.rows.Length0) {
      forall i: nat, j: nat | i < j < g.rows.Length0 && g.rows[i, k] != Null && g.rows[j, k] != Null
        ensures g.rows[i, k] != g.rows[j, k]
      {
        assert E.Cell(w, types, g.name, t, g.columns[k], i) != E.Cell(w, types, g.name, t, g.columns[k], j);
      }
    }
  }

  ghost predicate AtMostOneRow(c: Column, n: nat) {
    forall i: nat, j: nat :: i < j < n ==> K.NullAt(c, i) || K.NullAt(c, j)
  }

  /** A column drawn from a CHECK list or from labels, recorded as unique or not, is unique
      whatever is drawn exactly when at most one row is not NULL. */
  lemma DrawnUniqueIff(w: E.World, types: Types, name: string, t: E.Table, column: string, n: nat)
    requires column in t.columns && K.DrawnTexts(types, t.columns[column], E.DomainOn(w, t, column)) != []
    ensures (forall d: E.Draws | D.Words(d) :: CellsUnique(w.(draws := d), types, name, t, column, n))
            <==> AtMostOneRow(t.columns[column], n)
  {
    var c := t.columns[column];
    if AtMostOneRow(c, n) {
      forall d: E.Draws | D.Words(d)
        ensures CellsUnique(w.(draws := d), types, name, t, column, n)
      {
        forall i: nat, j: nat | i < j < n
          ensures E.Cell(w.(draws := d), types, name, t, column, i) == Null
                  || E.Cell(w.(draws := d), types, name, t, column, j) == Null
        {
          NullCell(w.(draws := d), types, name, t, column, i);
          NullCell(w.(draws := d), types, name, t, column, j);
        }
      }
    } else {
      var i: nat, j: nat :| i < j < n && !K.NullAt(c, i) && !K.NullAt(c, j);
      DrawnTwice(w, types, name, t, column, i, j);
      assert !CellsUnique(w.(draws := D.Two(0, 0)), types, name, t, column, n);
    }
  }

  lemma DrawnTwice(w: E.World, types: Types, name: string, t: E.Table, column: string, i: nat, j: nat)
    requires column in t.columns && K.DrawnTexts(types, t.columns[column], E.DomainOn(w, t, column)) != []
    requires !K.NullAt(t.columns[column], i) && !K.NullAt(t.columns[column], j)
    ensures var u := w.(draws := D.Two(0, 0));
            && D.Words(u.draws) && E.Cell(u, types, name, t, column, i) != Null
            && E.Cell(u, types, name, t, column, i) == E.Cell(u, types, name, t, column, j)
  {
    var u := w.(draws := D.Two(0, 0));
    assert E.DomainOn(u, t, column) == E.DomainOn(w, t, column);
    K.DrawnCell(u, types, name, t, column, i);
    K.DrawnCell(u, types, name, t, column, j);
  }

  /** A generated column without NULLs that has more rows than there are texts is never unique. */
  lemma DrawnRepeats(w: E.World, f: E.Fixture, g: G.Generated, fks: G.Assignments, counts: G.RowCounts, k: nat)
    requires G.Holds(w, f, g, fks, counts) && k < |g.columns| && g.columns[k] !in fks
    requires g.columns[k] in f.tables[g.name].columns
    requires NullFree(f.tables[g.name].columns[g.columns[k]], g.rows.Length0)
    requires var t := f.tables[g.name];
             var texts := K.DrawnTexts(f.types, t.columns[g.columns[k]], E.DomainOn(w, t, g.columns[k]));
             texts != [] && g.rows.Length0 > |Elements(texts)|
    ensures !ColumnUnique(g, k)
  {
    var t := f.tables[g.name];
    var texts := K.DrawnTexts(f.types, t.columns[g.columns[k]], E.DomainOn(w, t, g.columns[k]));
    forall o: nat | o < g.rows.Length0
      ensures g.rows[o, k].Text? && g.rows[o, k].s in Elements(texts)
    {
      assert g.rows[o, k] == G.CellOf(w, f, g.name, fks, counts, g.columns[k], o);
      K.DrawnCell(w, f.types, g.name, t, g.columns[k], o);
    }
    if ColumnUnique(g, k) {
      FewDistinctTexts(g, k, Elements(texts));
    }
  }

  lemma FewDistinctTexts(g: G.Generated, k: nat, texts: set<string>)
    requires k < g.rows.Length1 && ColumnUnique(g, k)
    requires forall o: nat :: o < g.rows.Length0 ==> g.rows[o, k].Text? && g.rows[o, k].s in texts
    ensures g.rows.Length0 <= |texts|
  {
    var shown := seq(g.rows.Length0, o requires 0 <= o < g.rows.Length0 reads g.rows =>
                       if g.rows[o, k].Text? then g.rows[o, k].s else "");
    DistinctSize(shown, texts);
  }
}
