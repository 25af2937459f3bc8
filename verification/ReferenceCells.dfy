/** What generated columns keep of the recorded facts where a foreign key skips the steps that
    make other cells: NULLs, uniqueness and CHECKs (internal/hydrate/engine.go). */
module ReferenceCells {
  import opened CheckDomains
  import opened CheckSound
  import C = CheckedCells
  import opened Columns
  import E = Engine
  import F = Fanouts
  import G = Generation
  import opened Holders
  import K = Keys
  import opened Nulls
  import opened Numbers
  import opened Rendering
  import U = UniqueCells
  import opened Values
  import opened Wrappers

  // ----- NULLs -----

  /** How many of the first n rows are NULL. */
  ghost function NullRows(g: G.Generated, k: nat, n: nat): nat
    requires k < g.rows.Length1 && n <= g.rows.Length0
    reads g.rows
  {
    if n == 0 then 0 else NullRows(g, k, n - 1) + if g.rows[n - 1, k] == Null then 1 else 0
  }

  /** The share of NULLs a column asks for. */
  function NullShare(c: Column): real {
    if c.nullable && c.nullFraction.Some? then c.nullFraction.value else 0.0
  }

  /** The share of NULLs of a generated column: a foreign key has none. */
  function ShareOf(f: E.Fixture, g: G.Generated, fks: G.Assignments, column: string): real
    requires g.name in f.tables && column in f.tables[g.name].columns
  {
    if column in fks then 0.0 else NullShare(f.tables[g.name].columns[column])
  }

  /** The first n rows are NULL where the fraction says so. */
  ghost predicate NullAsAsked(g: G.Generated, k: nat, n: nat, p: real)
    requires k < g.rows.Length1 && n <= g.rows.Length0
    reads g.rows
  {
    forall o: nat :: o < n ==> (g.rows[o, k] == Null <==> IsNullAt(o, p))
  }

  lemma {:induction false} NullRowsCounted(g: G.Generated, k: nat, n: nat, p: real)
    requires k < g.rows.Length1 && n <= g.rows.Length0
    requires NullAsAsked(g, k, n, p)
    ensures NullRows(g, k, n) == NullCount(n, p)
  {
    if n > 0 {
      NullRowsCounted(g, k, n - 1, p);
    }
  }

  lemma NullRow(w: E.World, f: E.Fixture, g: G.Generated, fks: G.Assignments, counts: G.RowCounts, k: nat, o: nat)
    requires G.Holds(w, f, g, fks, counts) && k < |g.columns| && o < g.rows.Length0
    requires g.columns[k] in f.tables[g.name].columns
    ensures g.rows[o, k] == Null <==> IsNullAt(o, ShareOf(f, g, fks, g.columns[k]))
  {
    assert g.rows[o, k] == G.CellOf(w, f, g.name, fks, counts, g.columns[k], o);
    if g.columns[k] in fks {
      var (ref, fk) := fks[g.columns[k]];
      KeyIsNotNull(w, f, ref.to, fk[o], G.RowsOf(counts, E.ParentTable(ref.to)));
    } else {
      U.NullCell(w, f.types, g.name, f.tables[g.name], g.columns[k], o);
    }
  }

  lemma KeyIsNotNull(w: E.World, f: E.Fixture, to: string, ord: nat, parentN: int)
    ensures E.ParentIdValue(w, f, to, ord, parentN) != Null
  {
  }

  lemma RowsAsAsked(w: E.World, f: E.Fixture, g: G.Generated, fks: G.Assignments, counts: G.RowCounts, k: nat)
    requires G.Holds(w, f, g, fks, counts) && k < |g.columns|
    requires g.columns[k] in f.tables[g.name].columns
    ensures NullAsAsked(g, k, g.rows.Length0, ShareOf(f, g, fks, g.columns[k]))
  {
    forall o: nat | o < g.rows.Length0
      ensures g.rows[o, k] == Null <==> IsNullAt(o, ShareOf(f, g, fks, g.columns[k]))
    {
      NullRow(w, f, g, fks, counts, k, o);
    }
  }

  lemma CountedAsAsked(g: G.Generated, k: nat, p: real)
    requires k < g.rows.Length1 && NullAsAsked(g, k, g.rows.Length0, p)
    ensures NullRows(g, k, g.rows.Length0) == NullsAsked(g.rows.Length0, p)
  {
    NullRowsCounted(g, k, g.rows.Length0, p);
    NullCountIsAsked(g.rows.Length0, p);
  }

  lemma NoneCounted(g: G.Generated, k: nat)
    requires k < g.rows.Length1 && NullAsAsked(g, k, g.rows.Length0, 0.0)
    ensures NullRows(g, k, g.rows.Length0) == 0
  {
    CountedAsAsked(g, k, 0.0);
  }

  /** In a generated table, exactly floor(n * p) rows of a column are NULL, p the recorded
      fraction of a nullable column, and none of a foreign key's. */
  lemma NullsReproduced(w: E.World, f: E.Fixture, g: G.Generated, fks: G.Assignments, counts: G.RowCounts, k: nat)
    requires G.Holds(w, f, g, fks, counts) && k < |g.columns|
    ensures g.columns[k] in f.tables[g.name].columns
    ensures g.columns[k] in fks ==> NullRows(g, k, g.rows.Length0) == 0
    ensures g.columns[k] !in fks ==>
              NullRows(g, k, g.rows.Length0)
              == NullsAsked(g.rows.Length0, NullShare(f.tables[g.name].columns[g.columns[k]]))
  {
    assert g.columns[k] in g.columns;
    RowsAsAsked(w, f, g, fks, counts, k);
    if g.columns[k] in fks {
      NoneCounted(g, k);
    } else {
      CountedAsAsked(g, k, NullShare(f.tables[g.name].columns[g.columns[k]]));
    }
  }

  // ----- uniqueness -----

  /** Two ordinals have one key. */
  predicate OneKey(w: E.World, f: E.Fixture, to: string, x: nat, y: nat) {
    var c := E.ParentIdColumn(f, to);
    if c.None? then x == y else Holder(w.lib, c.value, x) == Holder(w.lib, c.value, y)
  }

  lemma OneKeyIff(w: E.World, f: E.Fixture, to: string, x: nat, y: nat)
    requires x <= MAX_INT64 && y <= MAX_INT64
    ensures K.KeyOf(w, f, to, x) == K.KeyOf(w, f, to, y) <==> OneKey(w, f, to, x, y)
  {
    if E.ParentIdColumn(f, to).Some? {
      SameValueIff(w.lib, E.ParentIdColumn(f, to).value, x, y);
    }
  }

  /** Column k of a generated table is a foreign key over int64 ordinals. */
  ghost predicate KeyColumn(w: E.World, f: E.Fixture, g: G.Generated, fks: G.Assignments, counts: G.RowCounts, k: nat)
    reads g.rows
  {
    G.Holds(w, f, g, fks, counts) && k < |g.columns| && g.columns[k] in fks && G.Int64Assigned(fks)
  }

  lemma KeyRow(w: E.World, f: E.Fixture, g: G.Generated, fks: G.Assignments, counts: G.RowCounts, k: nat, o: nat)
    requires KeyColumn(w, f, g, fks, counts, k) && o < g.rows.Length0
    ensures var (ref, fk) := fks[g.columns[k]];
            && |fk| == g.rows.Length0 && 0 <= fk[o] <= MAX_INT64 && g.rows[o, k] == K.KeyOf(w, f, ref.to, fk[o])
            && g.rows[o, k] != Null
  {
    var (ref, fk) := fks[g.columns[k]];
    assert g.rows[o, k] == G.CellOf(w, f, g.name, fks, counts, g.columns[k], o);
    K.KeyIsKeyOf(w, f, ref.to, fk[o], G.RowsOf(counts, E.ParentTable(ref.to)));
  }

  lemma KeyRows(w: E.World, f: E.Fixture, g: G.Generated, fks: G.Assignments, counts: G.RowCounts, k: nat)
    requires KeyColumn(w, f, g, fks, counts, k)
    ensures var fk := fks[g.columns[k]].1;
            |fk| == g.rows.Length0 && forall o :: 0 <= o < |fk| ==> 0 <= fk[o] <= MAX_INT64
  {
    var fk := fks[g.columns[k]].1;
    forall o | 0 <= o < |fk|
      ensures 0 <= fk[o] <= MAX_INT64
    {
      KeyRow(w, f, g, fks, counts, k, o);
    }
  }

  ghost predicate NoKeyTwice(w: E.World, f: E.Fixture, to: string, fk: seq<int>)
    requires forall o :: 0 <= o < |fk| ==> fk[o] >= 0
  {
    forall i: nat, j: nat :: i < j < |fk| ==> !OneKey(w, f, to, fk[i], fk[j])
  }

  /** The rows of a foreign-key column differ, recorded as unique or not, exactly when no two of
      their ordinals have one key. */
  lemma KeysUniqueIff(w: E.World, f: E.Fixture, g: G.Generated, fks: G.Assignments, counts: G.RowCounts, k: nat)
    requires KeyColumn(w, f, g, fks, counts, k)
    ensures var (ref, fk) := fks[g.columns[k]];
            && (forall o :: 0 <= o < |fk| ==> fk[o] >= 0)
            && (U.ColumnUnique(g, k) <==> NoKeyTwice(w, f, ref.to, fk))
  {
    var (ref, fk) := fks[g.columns[k]];
    KeyRows(w, f, g, fks, counts, k);
    if NoKeyTwice(w, f, ref.to, fk) {
      forall i: nat, j: nat | i < j < g.rows.Length0
        ensures g.rows[i, k] != g.rows[j, k]
      {
        KeyRowsMeet(w, f, g, fks, counts, k, i, j);
      }
    } else {
      var i: nat, j: nat :| i < j < |fk| && OneKey(w, f, ref.to, fk[i], fk[j]);
      KeyRowsMeet(w, f, g, fks, counts, k, i, j);
    }
  }

  lemma KeyRowsMeet(w: E.World, f: E.Fixture, g: G.Generated, fks: G.Assignments, counts: G.RowCounts, k: nat,
                    i: nat, j: nat)
    requires KeyColumn(w, f, g, fks, counts, k) && i < j < g.rows.Length0
    ensures var (ref, fk) := fks[g.columns[k]];
            && |fk| == g.rows.Length0 && fk[i] >= 0 && fk[j] >= 0 && g.rows[i, k] != Null && g.rows[j, k] != Null
            && (g.rows[i, k] == g.rows[j, k] <==> OneKey(w, f, ref.to, fk[i], fk[j]))
  {
    var (ref, fk) := fks[g.columns[k]];
    KeyRow(w, f, g, fks, counts, k, i);
    KeyRow(w, f, g, fks, counts, k, j);
    OneKeyIff(w, f, ref.to, fk[i], fk[j]);
  }

  predicate Distinct(xs: seq<int>) {
    forall i, j :: 0 <= i < j < |xs| ==> xs[i] != xs[j]
  }

  /** Keys that are told apart repeat only where an ordinal does. */
  lemma ApartKeysUniqueIff(w: E.World, f: E.Fixture, g: G.Generated, fks: G.Assignments, counts: G.RowCounts, k: nat,
                           limit: nat)
    requires KeyColumn(w, f, g, fks, counts, k) && limit <= MAX_INT64
    requires var (ref, fk) := fks[g.columns[k]];
             && (E.ParentIdColumn(f, ref.to).Some? ==> TellsApart(w.lib, E.ParentIdColumn(f, ref.to).value, limit))
             && forall o :: 0 <= o < |fk| ==> fk[o] < limit
    ensures U.ColumnUnique(g, k) <==> Distinct(fks[g.columns[k]].1)
  {
    var (ref, fk) := fks[g.columns[k]];
    KeysUniqueIff(w, f, g, fks, counts, k);
    forall i: nat, j: nat | i < j < |fk|
      ensures OneKey(w, f, ref.to, fk[i], fk[j]) <==> fk[i] == fk[j]
    {
      if E.ParentIdColumn(f, ref.to).Some? {
        K.FirstsApart(w.lib, E.ParentIdColumn(f, ref.to).value, limit, fk[i]);
        K.FirstsApart(w.lib, E.ParentIdColumn(f, ref.to).value, limit, fk[j]);
      }
    }
  }

  lemma {:induction false} OccurrencesOf(xs: seq<int>, x: int)
    ensures multiset(xs)[x] >= 2 <==> exists i, j :: 0 <= i < j < |xs| && xs[i] == xs[j] == x
  {
    if xs != [] {
      var n := |xs| - 1;
      assert xs == xs[..n] + [xs[n]];
      OccurrencesOf(xs[..n], x);
      if xs[n] == x && multiset(xs)[x] >= 2 {
        assert x in multiset(xs[..n]) && x in xs[..n];
        var i :| 0 <= i < n && xs[..n][i] == x;
        assert xs[i] == xs[n] == x;
      } else if multiset(xs)[x] >= 2 {
        var i, j :| 0 <= i < j < n && xs[..n][i] == xs[..n][j] == x;
        assert xs[i] == xs[j] == x;
      }
      if i, j :| 0 <= i < j < |xs| && xs[i] == xs[j] == x {
        assert xs[..n][i] == x;
        if j < n {
          assert xs[..n][j] == x;
        } else {
          assert x in xs[..n] && x in multiset(xs[..n]);
        }
      }
    }
  }

  /** A column of keys told apart, drawn through a fan-out, is unique exactly when the allocator
      serves no group more than one row. */
  lemma ServedOnceIff(w: E.World, f: E.Fixture, g: G.Generated, fks: G.Assignments, counts: G.RowCounts, k: nat,
                      sizes: seq<int>, orphans: int, parentN: nat)
    requires KeyColumn(w, f, g, fks, counts, k) && g.rows.Length0 >= 1
    requires 1 <= parentN && 2 * parentN <= MAX_INT64
    requires var (ref, fk) := fks[g.columns[k]];
             && ref.shape.fanout.Some?
             && F.FanoutAssignment(fk, sizes, orphans, w.pow, ref.shape.fanout.value, ref.shape.orphanFraction,
                                   g.rows.Length0, parentN, g.declaredRows)
             && (E.ParentIdColumn(f, ref.to).Some? ==>
                   TellsApart(w.lib, E.ParentIdColumn(f, ref.to).value, 2 * parentN))
    ensures |sizes| == parentN
    ensures U.ColumnUnique(g, k)
            <==> forall p: nat :: p < parentN ==>
                   F.GroupRows(sizes, fks[g.columns[k]].0.shape.fanout.value, parentN, g.rows.Length0, p) <= 1
  {
    var (ref, fk) := fks[g.columns[k]];
    var fo, of, n := ref.shape.fanout.value, ref.shape.orphanFraction, g.rows.Length0;
    F.AssignmentFollowsCounts(fk, sizes, orphans, w.pow, fo, of, n, parentN, g.declaredRows);
    F.AssignmentOrphanRows(fk, sizes, orphans, w.pow, fo, of, n, parentN, g.declaredRows);
    ApartKeysUniqueIff(w, f, g, fks, counts, k, 2 * parentN);
    DistinctIff(fk, sizes, fo, orphans, parentN, n);
  }

  lemma DistinctIff(fk: seq<int>, sizes: seq<int>, fo: F.Fanout, orphans: int, parentN: int, n: int)
    requires |sizes| == parentN && n >= 1
    requires forall p: nat :: p < parentN ==>
               multiset(fk)[F.GroupOrdinal(p, orphans, parentN)] == F.GroupRows(sizes, fo, parentN, n, p)
    requires forall x :: x in fk ==> exists p :: 0 <= p < parentN && x == F.GroupOrdinal(p, orphans, parentN)
    ensures Distinct(fk) <==> forall p: nat :: p < parentN ==> F.GroupRows(sizes, fo, parentN, n, p) <= 1
  {
    if Distinct(fk) {
      forall p: nat | p < parentN
        ensures F.GroupRows(sizes, fo, parentN, n, p) <= 1
      {
        OccurrencesOf(fk, F.GroupOrdinal(p, orphans, parentN));
      }
    } else {
      var i, j :| 0 <= i < j < |fk| && fk[i] == fk[j];
      OccurrencesOf(fk, fk[i]);
      assert fk[i] in fk;
      var p: nat :| p < parentN && fk[i] == F.GroupOrdinal(p, orphans, parentN);
      assert F.GroupRows(sizes, fo, parentN, n, p) >= 2;
    }
  }

  /** Without a fan-out, it is unique exactly while there are no more rows than parents. */
  lemma RoundRobinUniqueIff(w: E.World, f: E.Fixture, g: G.Generated, fks: G.Assignments, counts: G.RowCounts, k: nat,
                            parentN: nat)
    requires KeyColumn(w, f, g, fks, counts, k) && 1 <= parentN <= MAX_INT64
    requires var ref := fks[g.columns[k]].0;
             && ref.shape.fanout.None? && parentN == G.RowsOf(counts, E.ParentTable(ref.to))
             && (E.ParentIdColumn(f, ref.to).Some? ==> TellsApart(w.lib, E.ParentIdColumn(f, ref.to).value, parentN))
    ensures U.ColumnUnique(g, k) <==> g.rows.Length0 <= parentN
  {
    var fk := fks[g.columns[k]].1;
    ApartKeysUniqueIff(w, f, g, fks, counts, k, parentN);
    if g.rows.Length0 <= parentN {
      forall i | 0 <= i < |fk|
        ensures fk[i] == i
      {
        SmallModulus(i, parentN);
      }
    } else {
      assert parentN % parentN == 0 && 0 % parentN == 0;
      assert fk[0] == fk[parentN];
    }
  }

  // ----- CHECKs -----

  /** A foreign-key column meets the CHECKs on it exactly when every assigned key does by itself:
      nothing brings a key inside them. */
  lemma KeysMeetIff(w: E.World, f: E.Fixture, g: G.Generated, fks: G.Assignments, counts: G.RowCounts, k: nat)
    requires KeyColumn(w, f, g, fks, counts, k)
    ensures var (ref, fk) := fks[g.columns[k]];
            && (forall o :: 0 <= o < |fk| ==> fk[o] >= 0)
            && (C.ColumnMeets(w, f, g, k)
                <==> forall o: nat :: o < |fk| ==>
                       SatisfiesAll(C.ChecksOn(w, f.tables[g.name], g.columns[k]), K.KeyOf(w, f, ref.to, fk[o])))
  {
    var (ref, fk) := fks[g.columns[k]];
    KeyRows(w, f, g, fks, counts, k);
    forall o: nat | o < |fk|
      ensures g.rows[o, k] == K.KeyOf(w, f, ref.to, fk[o]) && g.rows[o, k] != Null
    {
      KeyRow(w, f, g, fks, counts, k, o);
    }
  }

  predicate Inside(dom: Domain, n: int) {
    (dom.min.Some? ==> dom.min.value <= n as real) && (dom.max.Some? ==> n as real <= dom.max.value)
  }

  /** An integer that is not moved meets integral bounds exactly when it is inside them. */
  lemma InsideIff(checks: seq<Check>, n: int)
    requires OnlyBounds(checks) && Integral(Merged(checks))
    ensures SatisfiesAll(checks, Int(n)) <==> Inside(Merged(checks), n)
  {
    var m := Merged(checks);
    MergedBounds(checks);
    if Inside(m, n) {
      InsideSatisfies(checks, Int(n));
    } else if m.min.Some? && (n as real) < m.min.value {
      var c :| c in checks && DomainOf(c).min == m.min;
      assert n < Trunc(m.min.value);
      assert !Satisfies(c, Int(n));
    } else {
      var c :| c in checks && DomainOf(c).max == m.max;
      assert n > Trunc(m.max.value);
      assert !Satisfies(c, Int(n));
    }
  }

  /** Keys that are numbers meet integral bounds exactly when every one of them is inside. */
  lemma NumberKeysMeetIff(w: E.World, f: E.Fixture, g: G.Generated, fks: G.Assignments, counts: G.RowCounts, k: nat)
    requires KeyColumn(w, f, g, fks, counts, k)
    requires OnlyBounds(C.ChecksOn(w, f.tables[g.name], g.columns[k]))
    requires Integral(E.DomainOn(w, f.tables[g.name], g.columns[k]))
    requires var c := E.ParentIdColumn(f, fks[g.columns[k]].0.to); c.Some? ==> IsNumber(c.value)
    ensures var (ref, fk) := fks[g.columns[k]];
            && (forall o :: 0 <= o < |fk| ==> fk[o] >= 0)
            && (C.ColumnMeets(w, f, g, k)
                <==> forall o: nat :: o < |fk| ==>
                       Inside(E.DomainOn(w, f.tables[g.name], g.columns[k]), K.NumberOn(f, ref.to, fk[o]).value))
  {
    var (ref, fk) := fks[g.columns[k]];
    KeysMeetIff(w, f, g, fks, counts, k);
    forall o: nat | o < |fk|
      ensures SatisfiesAll(C.ChecksOn(w, f.tables[g.name], g.columns[k]), K.KeyOf(w, f, ref.to, fk[o]))
              <==> Inside(E.DomainOn(w, f.tables[g.name], g.columns[k]), K.NumberOn(f, ref.to, fk[o]).value)
    {
      InsideIff(C.ChecksOn(w, f.tables[g.name], g.columns[k]), K.NumberOn(f, ref.to, fk[o]).value);
      assert K.KeyOf(w, f, ref.to, fk[o]) == Int(K.NumberOn(f, ref.to, fk[o]).value);
    }
  }
}
