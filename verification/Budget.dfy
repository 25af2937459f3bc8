/** internal/hydrate/engine.go: how many rows are hydrated, and refusing a fixture that
    would not fit in memory, in wrapping 64-bit arithmetic. */
module Budget {
  import opened Numbers

  /** DefaultMaxCells. */
  const DEFAULT_MAX_CELLS: int := 50_000_000

  // ----- hydratedRowCount -----

  /** Go's int64(float64) outside the int64 range is whatever the machine makes of it. */
  type Narrow = real -> int

  function ToInt(x: real, narrow: Narrow): (r: int)
    ensures IsInt64(narrow(x)) ==> IsInt64(r)
  {
    if MIN_INT64 as real <= x < TWO_63 as real then Trunc(x) else narrow(x)
  }

  function HydratedRowCount(declared: int, scale: real, maxRows: int, narrow: Narrow): (r: nat)
    ensures r == 0 <==> declared <= 0
    ensures maxRows > 0 ==> r <= maxRows
    ensures IsInt64(narrow(declared as real * scale)) ==> r <= MAX_INT64
  {
    if declared <= 0 then 0 else Capped(declared as real * scale, maxRows, narrow)
  }

  function Capped(scaled: real, maxRows: int, narrow: Narrow): (r: int)
    ensures r >= 1
    ensures maxRows > 0 ==> r <= maxRows
    ensures IsInt64(narrow(scaled)) ==> r <= MAX_INT64
  {
    var n := Max(ToInt(scaled, narrow), 1);
    if maxRows > 0 && n > maxRows then maxRows else n
  }

  /** amd64 turns every out-of-range float into the least int64. */
  function Amd64(): Narrow {
    (x: real) => MIN_INT64
  }

  lemma ScaledGrows(a: real, s: real, t: real)
    requires a >= 0.0 && 0.0 < s <= t
    ensures 0.0 <= a * s <= a * t
  {
  }

  lemma CappedGrows(x: real, y: real, maxRows: int, narrow: Narrow)
    requires 0.0 <= x <= y < TWO_63 as real
    ensures Capped(x, maxRows, narrow) <= Capped(y, maxRows, narrow)
  {
    assert x.Floor <= y.Floor;
  }

  /** The scaled count is an int64. */
  predicate ScaledFits(declared: int, scale: real) {
    declared as real * scale < TWO_63 as real
  }

  /** How many rows are hydrated: the declared count times the scale, rounded down, at least
      one, and the cap where that is smaller. */
  lemma RowCountIsScaled(declared: int, scale: real, maxRows: int, narrow: Narrow)
    requires declared > 0 && scale > 0.0 && ScaledFits(declared, scale)
    ensures var r := HydratedRowCount(declared, scale, 0, narrow);
            && (if declared as real * scale < 1.0 then r == 1
                else r as real <= declared as real * scale < (r + 1) as real)
            && HydratedRowCount(declared, scale, maxRows, narrow) == if 0 < maxRows < r then maxRows else r
  {
    ScaledGrows(declared as real, scale, scale);
  }

  /** r rows of a table: none of an empty one, the cap where the scaled count reaches it, and
      otherwise that count rounded down, but at least one. */
  predicate RowsFollow(declared: int, scale: real, maxRows: int, r: int) {
    var x := declared as real * scale;
    if declared <= 0 then r == 0
    else if maxRows > 0 && x >= maxRows as real then r == maxRows
    else if x < 1.0 then r == 1
    else r as real <= x < (r + 1) as real
  }

  lemma RowCountFollows(declared: int, scale: real, maxRows: int, narrow: Narrow)
    requires scale > 0.0 && ScaledFits(declared, scale)
    ensures RowsFollow(declared, scale, maxRows, HydratedRowCount(declared, scale, maxRows, narrow))
  {
    if declared > 0 {
      RowCountIsScaled(declared, scale, maxRows, narrow);
    }
  }

  /** The whole fixture, without a cap, has exactly the declared rows. */
  lemma WholeRowCount(declared: nat, narrow: Narrow)
    requires declared <= MAX_INT64
    ensures HydratedRowCount(declared, 1.0, 0, narrow) == declared
  {
    assert declared as real * 1.0 == declared as real;
    if declared > 0 {
      RowCountIsScaled(declared, 1.0, 0, narrow);
    }
  }

  /** A larger scale gives no fewer rows as long as the scaled count is an int64. */
  lemma RowCountGrows(declared: int, s: real, t: real, maxRows: int, narrow: Narrow)
    requires 0.0 < s <= t && ScaledFits(declared, t)
    ensures HydratedRowCount(declared, s, maxRows, narrow) <= HydratedRowCount(declared, t, maxRows, narrow)
  {
    if declared > 0 {
      ScaledGrows(declared as real, s, t);
      CappedGrows(declared as real * s, declared as real * t, maxRows, narrow);
    }
  }

  /** On amd64 that is exactly when it does, for a table of more than one row: past the
      int64 range the count falls back to a single row. */
  lemma RowCountGrowsIff(declared: int, s: real, t: real, maxRows: int)
    requires 0.0 < s <= t && HydratedRowCount(declared, s, maxRows, Amd64()) > 1
    ensures HydratedRowCount(declared, s, maxRows, Amd64()) <= HydratedRowCount(declared, t, maxRows, Amd64())
            <==> ScaledFits(declared, t)
  {
    if ScaledFits(declared, t) {
      RowCountGrows(declared, s, t, maxRows, Amd64());
    } else {
      assert ToInt(declared as real * t, Amd64()) == MIN_INT64;
    }
  }

  // ----- checkBudget -----

  /** A table as checkBudget sees it: its hydrated rows and how many columns it has. */
  datatype Table = Table(rows: int, columns: int)

  predicate ValidTable(t: Table) {
    0 <= t.rows <= MAX_INT64 && 0 <= t.columns <= MAX_INT64
  }

  function Width(t: Table): (w: int)
    ensures 0 <= t.columns <= MAX_INT64 ==> 1 <= w <= MAX_INT64
  {
    if t.columns == 0 then 1 else t.columns
  }

  /** The cells a table has, as a mathematical integer. */
  function Cells(t: Table): int {
    t.rows * Width(t)
  }

  function TotalCells(ts: seq<Table>): int {
    if ts == [] then 0 else TotalCells(ts[..|ts| - 1]) + Cells(ts[|ts| - 1])
  }

  lemma CellsNatural(t: Table)
    requires ValidTable(t)
    ensures Cells(t) >= 0
  {
  }

  lemma {:induction false} TotalGrows(ts: seq<Table>, n: nat)
    requires n <= |ts| && forall t :: t in ts ==> ValidTable(t)
    ensures 0 <= TotalCells(ts[..n]) <= TotalCells(ts)
    decreases |ts|
  {
    if n == |ts| && n == 0 {
      assert ts[..n] == [];
    } else if n == |ts| {
      assert ts[..n] == ts;
      TotalGrows(ts[..n - 1], n - 1);
      CellsNatural(ts[n - 1]);
      assert ts[..n - 1][..n - 1] == ts[..n - 1];
    } else {
      TotalGrows(ts[..|ts| - 1], n);
      CellsNatural(ts[|ts| - 1]);
      assert ts[..|ts| - 1][..n] == ts[..n];
    }
  }

  /** The division test catches every wrapped product and no other. */
  lemma DivisionTestIsExact(rows: int, cols: int)
    requires 0 < rows <= MAX_INT64 && 1 <= cols <= MAX_INT64
    ensures QuoTrunc(Wrap(rows * cols), cols) == rows <==> rows * cols <= MAX_INT64
  {
    var p := rows * cols;
    ProductQuotient(rows, cols);
    if p > MAX_INT64 {
      WrappedFar(p);
      if QuoTrunc(Wrap(p), cols) == rows {
        QuotientNear(Wrap(p), cols, rows);
      }
    }
  }

  lemma ProductQuotient(rows: int, cols: int)
    requires rows > 0 && cols >= 1
    ensures rows * cols > 0 && QuoTrunc(rows * cols, cols) == rows
  {
    Positive(rows, cols);
    QuotientUnique(rows * cols, cols, rows);
  }

  lemma Positive(a: int, b: int)
    requires a > 0 && b > 0
    ensures a * b > 0
  {
  }

  lemma QuotientUnique(p: int, cols: int, rows: int)
    requires cols >= 1 && p == rows * cols
    ensures p / cols == rows
  {
    var q, r := p / cols, p % cols;
    Distribute(rows, q, cols);
    if rows > q {
      AtLeastOne(rows - q, cols);
    } else if rows < q {
      AtLeastOne(q - rows, cols);
    }
  }

  lemma Distribute(a: int, b: int, c: int)
    ensures a * c - b * c == (a - b) * c == -((b - a) * c)
  {
  }

  lemma AtLeastOne(d: int, c: int)
    requires d >= 1 && c >= 1
    ensures d * c >= c
  {
  }

  /** A positive quotient is that of a number near the product. */
  lemma QuotientNear(cells: int, cols: int, q: int)
    requires cols >= 1 && q > 0 && QuoTrunc(cells, cols) == q
    ensures 0 <= cells - q * cols
  {
    if cells < 0 {
      assert QuoTrunc(cells, cols) == -(Abs(cells) / cols);
    }
  }

  lemma WrappedFar(p: int)
    requires p > MAX_INT64
    ensures Wrap(p) < p
  {
  }

  datatype Verdict =
    | Accepted
    | RowsOverflow(table: nat)
    | TotalOverflow
    | OverLimit(total: int, biggest: nat)

  function Limit(maxCells: int): int {
    if maxCells == 0 then DEFAULT_MAX_CELLS else maxCells
  }

  /** A table without columns counts one cell a row. */
  lemma CellsCounted(t: Table)
    requires ValidTable(t)
    ensures Cells(t) == if t.columns == 0 then t.rows else t.rows * t.columns
  {
  }

  /** Accepts exactly when the limit, fifty million cells by default, is negative or the
      mathematical number of cells is within it; what an error names is true. */
  method CheckBudget(ts: seq<Table>, maxCells: int) returns (v: Verdict)
    requires forall t :: t in ts ==> ValidTable(t)
    requires IsInt64(maxCells)
    ensures v == Accepted <==>
            maxCells < 0 || TotalCells(ts) <= if maxCells == 0 then 50_000_000 else maxCells
    ensures v.RowsOverflow? ==> v.table < |ts| && Cells(ts[v.table]) > MAX_INT64
    ensures v.TotalOverflow? ==> TotalCells(ts) > MAX_INT64
    ensures v.OverLimit? ==> v.total == TotalCells(ts) && v.biggest < |ts|
                             && forall i :: 0 <= i < |ts| ==> Cells(ts[i]) <= Cells(ts[v.biggest])
  {
    var limit := Limit(maxCells);
    if limit < 0 {
      return Accepted;
    }
    var total, biggest, biggestCells := 0, 0, 0;
    for i := 0 to |ts|
      invariant total == TotalCells(ts[..i]) && 0 <= total <= MAX_INT64
      invariant 0 <= biggestCells && (i == 0 ==> biggestCells == 0)
      invariant biggestCells > 0 ==> biggest < i && biggestCells == Cells(ts[biggest])
      invariant biggestCells == 0 ==> total == 0
      invariant forall k :: 0 <= k < i ==> Cells(ts[k]) <= biggestCells
    {
      var cols, rows := Width(ts[i]), ts[i].rows;
      var cells := Wrap(rows * cols);
      assert ValidTable(ts[i]) && Cells(ts[i]) == rows * cols;
      CellsNatural(ts[i]);
      assert ts[..i + 1][..i] == ts[..i];
      assert TotalCells(ts[..i + 1]) == TotalCells(ts[..i]) + Cells(ts[i]);
      TotalGrows(ts, i + 1);
      if rows != 0 {
        DivisionTestIsExact(rows, cols);
        if QuoTrunc(cells, cols) != rows {
          return RowsOverflow(i);
        }
      }
      total := Wrap(total + cells);
      if total < 0 {
        return TotalOverflow;
      }
      if cells > biggestCells {
        biggest, biggestCells := i, cells;
      }
    }
    assert ts[..|ts|] == ts;
    if total <= limit {
      return Accepted;
    }
    v := OverLimit(total, biggest);
  }
}
