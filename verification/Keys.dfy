/** Whether the keys of child rows resolve: what internal/hydrate/engine.go promises of
    parentIDValue, row by row and over a whole reference. */
module Keys {
  import opened CheckDomains
  import opened CheckSound
  import opened Columns
  import opened Digits
  import opened Engine
  import opened Holders
  import opened Nulls
  import opened Numbers
  import opened Rendering
  import T = Text
  import opened Values
  import opened Wrappers

  // ----- the key of an ordinal -----

  lemma WrapAdds(a: int, b: int)
    ensures Wrap(Wrap(a) + b) == Wrap(a + b)
  {
    var k := (a + TWO_63) / TWO_64;
    assert Wrap(a) == a - k * TWO_64;
    assert (a + b + TWO_63 - k * TWO_64) % TWO_64 == (a + b + TWO_63) % TWO_64;
  }

  /** One step above the largest id for the first orphan, two for the second, ... */
  lemma StepAboveLargest(c: Column, ord: nat, parentN: int)
    requires 0 < parentN <= ord <= MAX_INT64
    ensures Wrap(Wrap(MaxParentId(c, parentN) + 1) + (ord - parentN)) == NumericInRange(c, ord, true)
  {
    var b := NumericBounds(c);
    if b.Some? {
      WrapAdds(b.value.0 + (parentN - 1), 1);
      WrapAdds(b.value.0 + parentN, ord - parentN);
    }
  }

  /** An orphan stepping above the largest id gets the id of its own ordinal: the two
      ways of choosing a key agree. */
  lemma KeyIsOrdinalsOwn(w: World, f: Fixture, to: string, ord: nat, parentN: int)
    requires ord <= MAX_INT64 && ParentIdColumn(f, to).Some?
    ensures ParentIdValue(w, f, to, ord, parentN) == ParentUniqueValue(w, ParentIdColumn(f, to).value, ord)
  {
    var c := ParentIdColumn(f, to).value;
    if ord >= parentN > 0 && ParentUniqueValue(w, c, ord).Int? {
      StepAboveLargest(c, ord, parentN);
    }
  }

  /** A reference names a table, which may be qualified, and its column behind the last dot. */
  lemma ReferenceRead(table: string, column: string)
    requires '.' !in column
    ensures ParentTable(table + "." + column) == table && ParentColumnName(table + "." + column) == column
  {
    var to := table + "." + column;
    assert to[|table|] == '.' && forall k :: |table| < k < |to| ==> to[k] == column[k - |table| - 1];
    assert to[..|table|] == table && to[|table| + 1..] == column;
  }

  /** The key of an ordinal: the unique value of the column referred to, or the ordinal itself
      where the fixture lacks that column. */
  function KeyOf(w: World, f: Fixture, to: string, ord: nat): Value {
    if ParentIdColumn(f, to).None? then Int(ord) else ParentUniqueValue(w, ParentIdColumn(f, to).value, ord)
  }

  lemma KeyIsKeyOf(w: World, f: Fixture, to: string, ord: nat, parentN: int)
    requires ord <= MAX_INT64
    ensures ParentIdValue(w, f, to, ord, parentN) == KeyOf(w, f, to, ord)
  {
    if ParentIdColumn(f, to).Some? {
      KeyIsOrdinalsOwn(w, f, to, ord, parentN);
    }
  }

  // ----- which keys are told apart -----

  lemma SameKeyIff(w: World, f: Fixture, to: string, parentN: int, n: nat, m: nat)
    requires ParentIdColumn(f, to).Some? && n <= MAX_INT64 && m <= MAX_INT64
    ensures var c := ParentIdColumn(f, to).value;
            ParentIdValue(w, f, to, n, parentN) == ParentIdValue(w, f, to, m, parentN)
            <==> Holder(w.lib, c, n) == Holder(w.lib, c, m)
  {
    KeyIsOrdinalsOwn(w, f, to, n, parentN);
    KeyIsOrdinalsOwn(w, f, to, m, parentN);
    SameValueIff(w.lib, ParentIdColumn(f, to).value, n, m);
  }

  /** Children of different parents, and orphans among themselves and against every
      parent, carry different keys. */
  lemma KeysTellApart(w: World, f: Fixture, to: string, parentN: int, limit: nat, n: nat, m: nat)
    requires ParentIdColumn(f, to).Some? && TellsApart(w.lib, ParentIdColumn(f, to).value, limit)
    requires n < limit && m < limit && limit <= MAX_INT64
    ensures ParentIdValue(w, f, to, n, parentN) == ParentIdValue(w, f, to, m, parentN) <==> n == m
  {
    var c := ParentIdColumn(f, to).value;
    SameKeyIff(w, f, to, parentN, n, m);
    FirstsApart(w.lib, c, limit, n);
    FirstsApart(w.lib, c, limit, m);
  }

  lemma FirstsApart(lib: Library, c: Column, limit: nat, n: nat)
    requires TellsApart(lib, c, limit) && n < limit <= MAX_INT64
    ensures Holder(lib, c, n) == n
  {
    TellsApartIff(lib, c, limit);
    AllApartIff(lib, c, limit);
  }

  // ----- a child's key is its parent's own -----

  predicate NullAt(c: Column, ord: nat) {
    c.nullable && c.nullFraction.Some? && IsNullAt(ord, c.nullFraction.value)
  }

  predicate DrawsLabels(types: Types, c: Column) {
    HasLabels(types, c.typ) || HasElementLabels(types, c.typ)
  }

  /** A unique column is generated from its ordinal, for the type its domain stands for. */
  lemma UniqueGenerated(w: World, types: Types, table: string, column: string, c: Column, ord: nat)
    requires c.unique && !NullAt(c, ord) && !DrawsLabels(types, c)
    ensures GenerateValue(w, types, table, column, c, ord)
            == FakeValue(w.lib, BaseColumn(types, c), ord, true)
  {
  }

  /** An integer already within the bounds, up to truncation of a fractional bound. */
  predicate Kept(dom: Domain, n: int) {
    && (dom.min.Some? && (n as real) < dom.min.value ==> Trunc(dom.min.value) == n)
    && (dom.max.Some? && n as real > dom.max.value ==> Trunc(dom.max.value) == n)
  }

  /** An integer that clamping and truncating leaves alone; bounds that exclude each other
      move every integer to the upper one. */
  predicate KeptAt(dom: Domain, n: int) {
    if dom.min.Some? && dom.max.Some? && dom.min.value > dom.max.value then n == Trunc(dom.max.value) else Kept(dom, n)
  }

  lemma KeptIff(dom: Domain, v: Value, draw: nat)
    requires dom.values == [] && !v.Num?
    ensures ApplyCheckDomain(v, dom, draw) == v <==> (v.Int? ==> KeptAt(dom, v.i))
  {
    if v.Int? {
      TruncOfInt(v.i);
    }
  }

  /** A parent column holds values of its own or, where it is a foreign key itself, the keys of
      the table up that its rows are assigned to. */
  datatype Held = Own | Borrowed(up: string, pk: seq<int>, upN: int)

  /** The parent row exists; ordinals are int64s. */
  predicate HasCell(held: Held, ord: nat) {
    held.Borrowed? ==> ord < |held.pk| && 0 <= held.pk[ord] <= MAX_INT64
  }

  /** The cell of the parent table, as it is generated. */
  function ParentCell(w: World, f: Fixture, to: string, held: Held, ord: nat): Value
    requires ParentIdColumn(f, to).Some? && HasCell(held, ord)
  {
    if held.Borrowed? then ParentIdValue(w, f, held.up, held.pk[ord], held.upN)
    else Cell(w, f.types, ParentTable(to), f.tables[ParentTable(to)], ParentColumnName(to), ord)
  }

  function ParentDomain(w: World, f: Fixture, to: string): Domain
    requires ParentIdColumn(f, to).Some?
  {
    DomainOn(w, f.tables[ParentTable(to)], ParentColumnName(to))
  }

  /** The type a column names and the type its domain stands for render the ordinal alike. */
  predicate SameRendering(lib: Library, types: Types, c: Column, ord: nat) {
    FakeValue(lib, c, ord, true) == FakeValue(lib, BaseColumn(types, c), ord, true)
  }

  /** When the value of a column that is not unique ends up as the key. */
  predicate EndsAs(dom: Domain, v: Value, key: Value) {
    if v.Int? && key.Int? then Trunc(ClampReal(v.i as real, dom.min, dom.max)) == key.i else v == key
  }

  /** The texts that a cell is drawn from, if it is: a CHECK list, the labels of an enum, or
      arrays of one of them. */
  function DrawnTexts(types: Types, c: Column, dom: Domain): (ts: seq<string>)
    ensures ts == [] <==> dom.values == [] && !DrawsLabels(types, c)
  {
    if dom.values != [] then dom.values
    else if HasLabels(types, c.typ) then EnumLabels(types, c.typ).value
    else if HasElementLabels(types, c.typ) then
      var labels := EnumLabels(types, ArrayElement(c.typ).value).value;
      seq(|labels|, i requires 0 <= i < |labels| => "{\"" + labels[i] + "\"}")
    else []
  }

  /** When a parent's cell is a given key, guard by guard of the generator: in a borrowed column
      if the ordinal its row was assigned has that key; never where it is NULL; where texts are
      drawn from, if the drawn one is the key; and for any other column, if the generated value
      ends up as the key. */
  predicate CellIs(w: World, f: Fixture, to: string, held: Held, ord: nat, key: Value)
    requires ParentIdColumn(f, to).Some? && HasCell(held, ord)
  {
    if held.Borrowed? then KeyOf(w, f, held.up, held.pk[ord]) == key else OwnCellIs(w, f, to, ord, key)
  }

  predicate OwnCellIs(w: World, f: Fixture, to: string, ord: nat, key: Value)
    requires ParentIdColumn(f, to).Some?
  {
    var c, dom := ParentIdColumn(f, to).value, ParentDomain(w, f, to);
    var texts := DrawnTexts(f.types, c, dom);
    if NullAt(c, ord) then false
    else if texts != [] then
      key == Text(texts[Intn(w.draws(ParentTable(to), ParentColumnName(to), ord, 0), |texts|)])
    else if c.unique then EndsAs(dom, FakeValue(w.lib, BaseColumn(f.types, c), ord, true), key)
    else EndsAs(dom, SharedValue(w, f.types, ParentTable(to), ParentColumnName(to), c, ord), key)
  }

  lemma SharedNeverFraction(w: World, types: Types, table: string, column: string, c: Column, ord: nat)
    ensures !SharedValue(w, types, table, column, c, ord).Num? && SharedValue(w, types, table, column, c, ord) != Null
  {
  }

  lemma EndsAsIff(dom: Domain, v: Value, key: Value, draw: nat)
    requires dom.values == [] && !v.Num? && !key.Num?
    ensures ApplyCheckDomain(v, dom, draw) == key <==> EndsAs(dom, v, key)
  {
  }

  /** For every parent column and every key. */
  lemma CellIsIff(w: World, f: Fixture, to: string, held: Held, ord: nat, key: Value)
    requires ParentIdColumn(f, to).Some? && HasCell(held, ord) && key != Null && !key.Num?
    ensures ParentCell(w, f, to, held, ord) == key <==> CellIs(w, f, to, held, ord, key)
  {
    if held.Borrowed? {
      KeyIsKeyOf(w, f, held.up, held.pk[ord], held.upN);
    } else {
      OwnCellIsIff(w, f, to, ord, key);
    }
  }

  lemma OwnCellIsIff(w: World, f: Fixture, to: string, ord: nat, key: Value)
    requires ParentIdColumn(f, to).Some? && key != Null && !key.Num?
    ensures ParentCell(w, f, to, Own, ord) == key <==> OwnCellIs(w, f, to, ord, key)
  {
    var c, dom := ParentIdColumn(f, to).value, ParentDomain(w, f, to);
    var table, column := ParentTable(to), ParentColumnName(to);
    var draw := w.draws(table, column, ord, 0);
    if !NullAt(c, ord) {
      if DrawnTexts(f.types, c, dom) != [] {
        DrawnCell(w, f.types, table, f.tables[table], column, ord);
      } else if c.unique {
        EndsAsIff(dom, FakeValue(w.lib, BaseColumn(f.types, c), ord, true), key, draw);
      } else {
        SharedNeverFraction(w, f.types, table, column, c, ord);
        EndsAsIff(dom, SharedValue(w, f.types, table, column, c, ord), key, draw);
      }
    }
  }

  /** A cell drawn from texts. */
  lemma DrawnCell(w: World, types: Types, table: string, t: Table, column: string, ord: nat)
    requires column in t.columns && !NullAt(t.columns[column], ord)
    requires DrawnTexts(types, t.columns[column], DomainOn(w, t, column)) != []
    ensures var texts := DrawnTexts(types, t.columns[column], DomainOn(w, t, column));
            Cell(w, types, table, t, column, ord) == Text(texts[Intn(w.draws(table, column, ord, 0), |texts|)])
  {
    var c, dom, draw := t.columns[column], DomainOn(w, t, column), w.draws(table, column, ord, 0);
    if dom.values == [] {
      DrawnValue(w, types, table, column, c, dom, ord);
    } else {
      NullExactly(w, types, table, column, c, ord);
      ListDrawn(GenerateValue(w, types, table, column, c, ord), dom, draw);
    }
  }

  lemma ListDrawn(v: Value, dom: Domain, draw: nat)
    requires v != Null && dom.values != []
    ensures ApplyCheckDomain(v, dom, draw) == Text(dom.values[Intn(draw, |dom.values|)])
  {
  }

  lemma NullExactly(w: World, types: Types, table: string, column: string, c: Column, ord: nat)
    ensures GenerateValue(w, types, table, column, c, ord) == Null <==> NullAt(c, ord)
  {
  }

  lemma DrawnValue(w: World, types: Types, table: string, column: string, c: Column, dom: Domain, ord: nat)
    requires !NullAt(c, ord) && dom.values == [] && DrawsLabels(types, c)
    ensures var texts := DrawnTexts(types, c, dom);
            GenerateValue(w, types, table, column, c, ord)
            == Text(texts[Intn(w.draws(table, column, ord, 0), |texts|)])
  {
  }

  /** A parent column whose rows come straight from their ordinals. */
  predicate OrdinalsOwn(w: World, f: Fixture, to: string, held: Held)
    requires ParentIdColumn(f, to).Some?
  {
    var c := ParentIdColumn(f, to).value;
    held.Own? && c.unique && DrawnTexts(f.types, c, ParentDomain(w, f, to)) == []
  }

  /** When a parent's cell is the key of its children: from its own ordinal, if it is not NULL,
      its domain's base renders alike and the bounds leave the key alone; otherwise as above. */
  predicate ParentHolds(w: World, f: Fixture, to: string, held: Held, ord: nat)
    requires ParentIdColumn(f, to).Some? && HasCell(held, ord)
  {
    var c := ParentIdColumn(f, to).value;
    var key := ParentUniqueValue(w, c, ord);
    if OrdinalsOwn(w, f, to, held) then
      !NullAt(c, ord) && SameRendering(w.lib, f.types, c, ord)
      && (key.Int? ==> KeptAt(ParentDomain(w, f, to), key.i))
    else CellIs(w, f, to, held, ord, key)
  }

  /** For every parent column, one that is a foreign key itself included: the cell a parent
      generates is the key its children carry exactly when ParentHolds. */
  lemma ChildKeyMatchesIff(w: World, f: Fixture, to: string, held: Held, ord: nat, parentN: int)
    requires ParentIdColumn(f, to).Some? && HasCell(held, ord) && ord < parentN
    ensures ParentCell(w, f, to, held, ord) == ParentIdValue(w, f, to, ord, parentN)
            <==> ParentHolds(w, f, to, held, ord)
  {
    var c, dom := ParentIdColumn(f, to).value, ParentDomain(w, f, to);
    var key, draw := ParentUniqueValue(w, c, ord), w.draws(ParentTable(to), ParentColumnName(to), ord, 0);
    if OrdinalsOwn(w, f, to, held) {
      RenderedNumbersAgree(w.lib, c, ResolveType(f.types, c.typ), ord);
      UniqueHoldsIff(dom, FakeValue(w.lib, BaseColumn(f.types, c), ord, true), key, draw);
    } else {
      CellIsIff(w, f, to, held, ord, key);
    }
  }

  lemma UniqueHoldsIff(dom: Domain, v: Value, key: Value, draw: nat)
    requires dom.values == [] && !v.Num? && !key.Num? && (v.Int? && key.Int? ==> v == key)
    ensures ApplyCheckDomain(v, dom, draw) == key <==> key == v && (key.Int? ==> KeptAt(dom, key.i))
  {
    KeptIff(dom, v, draw);
  }

  /** A number does not depend on the type that names it. */
  lemma RenderedNumbersAgree(lib: Library, c: Column, typ: string, ord: nat)
    ensures var v, key := FakeValue(lib, c.(typ := typ), ord, true), FakeValue(lib, c, ord, true);
            v.Int? && key.Int? ==> v == key
  {
    NumberIgnoresType(c, typ, ord);
  }

  lemma NumberIgnoresType(c: Column, typ: string, n: nat)
    ensures NumericInRange(c.(typ := typ), n, true) == NumericInRange(c, n, true)
  {
  }

  // ----- a parent column that is a foreign key itself -----

  /** The columns render every ordinal alike. */
  predicate Alike(c: Column, g: Column) {
    c.typ == g.typ && c.format == g.format && c.values == g.values && c.range == g.range && c.lengthMax == g.lengthMax
  }

  lemma AlikeRender(lib: Library, c: Column, g: Column, n: nat)
    requires Alike(c, g)
    ensures FakeValue(lib, c, n, true) == FakeValue(lib, g, n, true)
  {
    AlikeParts(c, g, n);
    AlikeScalars(lib, Categorize(c.typ), c, g, n);
    AlikeRaw(lib, c, g, n);
    AlikeFits(c, g, n, RawFakeValue(lib, c, n, true));
  }

  lemma AlikeParts(c: Column, g: Column, n: nat)
    requires Alike(c, g)
    ensures TemplateOf(c) == TemplateOf(g) && HintedValue(c, n) == HintedValue(g, n)
    ensures ElementColumn(c) == ElementColumn(g)
  {
  }

  lemma AlikeScalars(lib: Library, k: Category, c: Column, g: Column, n: nat)
    requires Alike(c, g)
    ensures ScalarValue(lib, k, c, n, true) == ScalarValue(lib, k, g, n, true)
  {
    assert NumericInRange(c, n, true) == NumericInRange(g, n, true);
    assert TemporalInRange(lib, c, n) == TemporalInRange(lib, g, n);
  }

  lemma AlikeRaw(lib: Library, c: Column, g: Column, n: nat)
    requires Alike(c, g) && TemplateOf(c) == TemplateOf(g) && HintedValue(c, n) == HintedValue(g, n)
    requires ElementColumn(c) == ElementColumn(g)
    requires ScalarValue(lib, Categorize(c.typ), c, n, true) == ScalarValue(lib, Categorize(c.typ), g, n, true)
    ensures RawFakeValue(lib, c, n, true) == RawFakeValue(lib, g, n, true)
  {
  }

  lemma AlikeFits(c: Column, g: Column, n: nat, v: Value)
    requires Alike(c, g)
    ensures FitCharWidth(c, n, v, true) == FitCharWidth(g, n, v, true)
  {
  }

  /** Over two columns that render alike, a parent row holds its ordinal's key exactly when the
      ordinal it was assigned itself has the same value. */
  lemma BorrowedHoldsIff(w: World, f: Fixture, to: string, held: Held, ord: nat)
    requires ParentIdColumn(f, to).Some? && held.Borrowed? && HasCell(held, ord) && ord <= MAX_INT64
    requires ParentIdColumn(f, held.up).Some? && Alike(ParentIdColumn(f, to).value, ParentIdColumn(f, held.up).value)
    ensures var c := ParentIdColumn(f, to).value;
            ParentHolds(w, f, to, held, ord) <==> Holder(w.lib, c, ord) == Holder(w.lib, c, held.pk[ord])
  {
    var c := ParentIdColumn(f, to).value;
    AlikeRender(w.lib, c, ParentIdColumn(f, held.up).value, held.pk[ord]);
    SameValueIff(w.lib, c, ord, held.pk[ord]);
  }

  /** The number an ordinal of the column referred to has, if that column holds numbers. */
  function NumberOn(f: Fixture, to: string, ord: nat): Option<int> {
    if ParentIdColumn(f, to).None? then Some(ord)
    else if IsNumber(ParentIdColumn(f, to).value) then Some(NumericInRange(ParentIdColumn(f, to).value, ord, true))
    else None
  }

  /** A number is held exactly when the assigned ordinal has that number in its own range. */
  lemma BorrowedNumberIff(w: World, f: Fixture, to: string, held: Held, ord: nat)
    requires ParentIdColumn(f, to).Some? && held.Borrowed? && HasCell(held, ord)
    requires IsNumber(ParentIdColumn(f, to).value)
    ensures ParentHolds(w, f, to, held, ord) <==> NumberOn(f, to, ord) == NumberOn(f, held.up, held.pk[ord])
  {
  }

  /** A shared primary key assigned without a fan-out, row after row: exactly the rows below the
      number of rows it refers to hold their children's keys. */
  lemma SharedKeyHoldsIff(w: World, f: Fixture, to: string, held: Held, ord: nat, limit: nat)
    requires ParentIdColumn(f, to).Some? && held.Borrowed? && HasCell(held, ord) && ord < limit <= MAX_INT64
    requires ParentIdColumn(f, held.up).Some? && Alike(ParentIdColumn(f, to).value, ParentIdColumn(f, held.up).value)
    requires TellsApart(w.lib, ParentIdColumn(f, to).value, limit)
    requires held.upN > 0 && held.pk[ord] == ord % held.upN
    ensures ParentHolds(w, f, to, held, ord) <==> ord < held.upN
  {
    var c := ParentIdColumn(f, to).value;
    BorrowedHoldsIff(w, f, to, held, ord);
    RemainderAtMost(ord, held.upN);
    FirstsApart(w.lib, c, limit, ord);
    FirstsApart(w.lib, c, limit, held.pk[ord]);
    if ord < held.upN {
      SmallModulus(ord, held.upN);
    }
  }

  /** Numbers from 5 over a key of numbers from 1: the parent row assigned the first of them
      holds 1, and its children carry 5. */
  lemma BorrowedKeyCanDangle(w: World, f: Fixture, to: string, held: Held, parentN: int)
    requires ParentIdColumn(f, to).Some? && held.Borrowed? && HasCell(held, 0) && held.pk[0] == 0
    requires ParentIdColumn(f, held.up).Some?
    requires var c, g := ParentIdColumn(f, to).value, ParentIdColumn(f, held.up).value;
             IsNumber(c) && IsNumber(g) && NumericBounds(c) == Some((5, 90)) && NumericBounds(g) == Some((1, 100))
    ensures ParentCell(w, f, to, held, 0) == Int(1) && ParentIdValue(w, f, to, 0, parentN) == Int(5)
  {
    KeyIsKeyOf(w, f, held.up, 0, held.upN);
    KeyIsKeyOf(w, f, to, 0, parentN);
  }

  // ----- what that means for particular parents -----

  /** A parent that is NULL at the ordinal does not hold the key of its child. */
  lemma NullParentDangles(w: World, f: Fixture, to: string, ord: nat, parentN: int)
    requires ParentIdColumn(f, to).Some? && ord < parentN
    requires NullAt(ParentIdColumn(f, to).value, ord)
    ensures ParentCell(w, f, to, Own, ord) == Null != ParentIdValue(w, f, to, ord, parentN)
  {
  }

  predicate TextLike(typ: string) {
    Categorize(typ).Textual? || Categorize(typ).Unmodelled?
  }

  predicate Fits(width: Option<nat>, length: nat) {
    width.None? || length <= width.value
  }

  /** Text of a length fits both widths, or fits neither and the base-36 digits of the ordinal
      are cut alike. */
  predicate CutAlike(own: Option<nat>, base: Option<nat>, length: nat, ord: nat) {
    if Fits(own, length) then Fits(base, length)
    else !Fits(base, length) && TailsAlike(own.value, base.value, ord)
  }

  predicate TailsAlike(own: nat, base: nat, ord: nat) {
    own == base || (|Numeral(ord, 36)| <= own && |Numeral(ord, 36)| <= base)
  }

  /** Unique text under a width that may be absent. */
  function FitInto(width: Option<nat>, n: nat, s: string): string {
    if width.None? then s else FitText(width.value, n, s, true)
  }

  lemma TailsAgreeIff(n: nat, a: nat, b: nat)
    ensures Base36Tail(n, a) == Base36Tail(n, b) <==> TailsAlike(a, b, n)
  {
    var l := |Numeral(n, 36)|;
    assert |Base36Tail(n, a)| == if l <= a then l else a;
    assert |Base36Tail(n, b)| == if l <= b then l else b;
  }

  /** Two widths leave the same text exactly when it fits both, or fits neither and the
      ordinal's base-36 digits are cut alike. */
  lemma FitIntoAgreesIff(own: Option<nat>, base: Option<nat>, n: nat, s: string)
    ensures FitInto(own, n, s) == FitInto(base, n, s) <==> CutAlike(own, base, |s|, n)
  {
    if !Fits(own, |s|) && !Fits(base, |s|) {
      TailsAgreeIff(n, own.value, base.value);
    }
  }

  /** A key whose text does not depend on the type, hinted or over a plain text domain: only the
      two widths can part parent and child. */
  lemma ClampedKeyIff(lib: Library, types: Types, c: Column, ord: nat)
    requires c.format != NoFormat || (TextLike(c.typ) && TextLike(ResolveType(types, c.typ)))
    requires RawFakeValue(lib, c, ord, true).Text?
    ensures var own, base := EffectiveWidth(c), EffectiveWidth(BaseColumn(types, c));
            SameRendering(lib, types, c, ord) <==> CutAlike(own, base, |RawFakeValue(lib, c, ord, true).s|, ord)
  {
    RawIgnoresType(lib, c, ResolveType(types, c.typ), ord);
    var d := BaseColumn(types, c);
    FitIntoAgreesIff(EffectiveWidth(c), EffectiveWidth(d), ord, RawFakeValue(lib, c, ord, true).s);
    FakeFitsInto(lib, c, ord);
    FakeFitsInto(lib, d, ord);
  }

  lemma RawIgnoresType(lib: Library, c: Column, typ: string, n: nat)
    requires c.format != NoFormat || (TextLike(c.typ) && TextLike(typ))
    ensures RawFakeValue(lib, c.(typ := typ), n, true) == RawFakeValue(lib, c, n, true)
  {
    if c.format != NoFormat {
      HintIgnoresType(lib, c, typ, n);
    } else {
      PlainRaw(lib, c, n);
      PlainRaw(lib, c.(typ := typ), n);
    }
  }

  lemma HintIgnoresType(lib: Library, c: Column, typ: string, n: nat)
    requires c.format != NoFormat
    ensures RawFakeValue(lib, c.(typ := typ), n, true) == RawFakeValue(lib, c, n, true)
  {
    var d := c.(typ := typ);
    assert TemplateOf(d) == TemplateOf(c) && HintedValue(d, n) == HintedValue(c, n);
  }

  lemma PlainRaw(lib: Library, c: Column, n: nat)
    requires c.format == NoFormat && TextLike(c.typ)
    ensures RawFakeValue(lib, c, n, true) == Text(Fill(Template("val_", 0, ""), n))
  {
  }

  lemma FakeFitsInto(lib: Library, c: Column, n: nat)
    requires RawFakeValue(lib, c, n, true).Text?
    ensures FakeValue(lib, c, n, true) == Text(FitInto(EffectiveWidth(c), n, RawFakeValue(lib, c, n, true).s))
  {
  }

  /** An unhinted key whose type reads as text or as unknown, as a domain's does: the child
      carries the text of that type. Over a text base only the widths can part the two; over
      any other base they meet only where both are cut, or a bit string reads like the cut text. */
  lemma DomainTypedKeyIff(lib: Library, types: Types, c: Column, ord: nat)
    requires c.format == NoFormat && TextLike(c.typ)
    ensures var d := BaseColumn(types, c);
            var own, base := EffectiveWidth(c), EffectiveWidth(d);
            SameRendering(lib, types, c, ord)
            <==> if TextLike(d.typ) then CutAlike(own, base, |Fill(Template("val_", 0, ""), ord)|, ord)
                 else Cut(lib, c, ord)
                      && if Cut(lib, d, ord) then TailsAlike(own.value, base.value, ord)
                         else Categorize(d.typ).Bit? && BitLiteral(ord, BitWidth(d)) == Base36Tail(ord, own.value)
  {
    var d := BaseColumn(types, c);
    if TextLike(d.typ) {
      PlainRaw(lib, c, ord);
      ClampedKeyIff(lib, types, c, ord);
    } else {
      OtherBaseIff(lib, c, d, ord);
    }
  }

  lemma OtherBaseIff(lib: Library, c: Column, d: Column, ord: nat)
    requires c.format == d.format == NoFormat && TextLike(c.typ) && !TextLike(d.typ)
    ensures FakeValue(lib, c, ord, true) == FakeValue(lib, d, ord, true)
            <==> Cut(lib, c, ord)
                 && var own := EffectiveWidth(c).value;
                    if Cut(lib, d, ord) then TailsAlike(own, EffectiveWidth(d).value, ord)
                    else Categorize(d.typ).Bit? && BitLiteral(ord, BitWidth(d)) == Base36Tail(ord, own)
  {
    FakeIs(lib, c, ord);
    FakeIs(lib, d, ord);
    if !Cut(lib, c, ord) {
      UncutDiffers(lib, c, d, ord);
    } else if Cut(lib, d, ord) {
      TailsAgreeIff(ord, EffectiveWidth(c).value, EffectiveWidth(d).value);
    } else {
      OnlyBitsAreTails(lib, d, ord);
      if Categorize(d.typ).Bit? {
        BitsRead(lib, d, ord);
      }
    }
  }

  lemma UncutDiffers(lib: Library, c: Column, d: Column, ord: nat)
    requires c.format == d.format == NoFormat && TextLike(c.typ) && !TextLike(d.typ) && !Cut(lib, c, ord)
    ensures FakeValue(lib, c, ord, true) != FakeValue(lib, d, ord, true)
  {
    FakeIs(lib, c, ord);
    FakeIs(lib, d, ord);
    PlainRaw(lib, c, ord);
    StartsWithV(ord);
    StartsElsewhere(lib, d, ord);
  }

  lemma BitsRead(lib: Library, d: Column, n: nat)
    requires d.format == NoFormat && Categorize(d.typ).Bit?
    ensures RawFakeValue(lib, d, n, true) == Text(BitLiteral(n, BitWidth(d)))
  {
    BitsScalar(lib, Categorize(d.typ), d, n);
  }

  lemma BitsScalar(lib: Library, k: Category, d: Column, n: nat)
    requires k.Bit?
    ensures CategoryTemplate(k).None? && ScalarValue(lib, k, d, n, true) == Text(BitLiteral(n, BitWidth(d)))
  {
  }

  lemma StartsWithV(n: nat)
    ensures Fill(Template("val_", 0, ""), n)[0] == 'v' && !AllDigits(Fill(Template("val_", 0, ""), n), 36)
  {
    assert ("val_" + Padded(n, 10, 0) + "")[0] == "val_"[0];
    assert "val_"[3] == '_';
    MarkedFill(Template("val_", 0, ""), n);
  }

  lemma OnlyBitsAreTails(lib: Library, d: Column, n: nat)
    requires d.format == NoFormat
    ensures var v := RawFakeValue(lib, d, n, true);
            v.Text? && AllDigits(v.s, 36) ==> Categorize(d.typ).Bit?
  {
    var v := RawFakeValue(lib, d, n, true);
    if v.Text? && !IsArray(d) && !Categorize(d.typ).Bit? {
      RawIsNoTail(lib, d, n);
    } else if IsArray(d) {
      assert v.s[0] == '{';
    }
  }

  lemma StartsElsewhere(lib: Library, c: Column, n: nat)
    requires c.format == NoFormat && !TextLike(c.typ)
    ensures var v := RawFakeValue(lib, c, n, true); v.Text? ==> v.s != "" && v.s[0] != 'v'
  {
    var k := Categorize(c.typ);
    if CategoryTemplate(k).Some? {
      TemplateStart(k, n);
    } else if !k.Array? {
      ScalarStart(lib, k, c, n);
    }
  }

  lemma TemplateStart(k: Category, n: nat)
    requires CategoryTemplate(k).Some? && !k.Textual? && !k.Unmodelled?
    ensures var s := Fill(CategoryTemplate(k).value, n); s != "" && s[0] != 'v'
  {
    var t := CategoryTemplate(k).value;
    assert AllDigits(Padded(n, 10, t.pad), 10) by { PaddedDigits(n, t.pad); }
    assert t.prefix != "" ==> Fill(t, n)[0] == t.prefix[0];
    assert t.prefix == "" ==> Fill(t, n)[0] == Padded(n, 10, t.pad)[0];
  }

  lemma PaddedDigits(n: nat, pad: nat)
    ensures AllDigits(Padded(n, 10, pad), 10) && Padded(n, 10, pad) != ""
  {
    ZerosAreDigits(if |Numeral(n, 10)| < pad then pad - |Numeral(n, 10)| else 0);
  }

  lemma {:induction false} ZerosAreDigits(k: nat)
    ensures AllDigits(Zeros(k), 10)
  {
    if k > 0 {
      ZerosAreDigits(k - 1);
    }
  }

  lemma ScalarStart(lib: Library, k: Category, c: Column, n: nat)
    requires CategoryTemplate(k).None? && !k.Array?
    ensures var v := ScalarValue(lib, k, c, n, true); v.Text? ==> v.s != "" && v.s[0] != 'v'
  {
  }

  predicate Int64Bounds(c: Column) {
    NumericBounds(c).Some? && IsInt64(NumericBounds(c).value.0) && IsInt64(NumericBounds(c).value.1)
  }

  lemma CountsUpFrom(c: Column, n: nat)
    requires Int64Bounds(c) && NumericBounds(c).value.0 + n <= MAX_INT64
    ensures NumericInRange(c, n, true) == NumericBounds(c).value.0 + n
  {
  }

  lemma WrapsInside(c: Column, n: nat)
    requires Int64Bounds(c) && NumericBounds(c).value.1 - NumericBounds(c).value.0 < MAX_INT64
    ensures NumericInRange(c, n, false)
            == NumericBounds(c).value.0 + n % (NumericBounds(c).value.1 - NumericBounds(c).value.0 + 1)
  {
  }

  // ----- CHECK bounds on a numeric key -----

  /** The key of the i-th row of a unique numeric column, clamped into its CHECK bounds. */
  function ClampedKey(dom: Domain, lo: int, i: nat): Value {
    ClampNumeric(Int(lo + i), dom.min, dom.max)
  }

  lemma ClampedKeyIs(dom: Domain, lo: int, i: nat)
    requires Consistent(dom)
    ensures KeptAt(dom, lo + i) ==> ClampedKey(dom, lo, i) == Int(lo + i)
    ensures dom.min.Some? && ((lo + i) as real <= dom.min.value || lo + i == Trunc(dom.min.value)) ==>
              ClampedKey(dom, lo, i) == Int(Trunc(dom.min.value))
    ensures dom.max.Some? && ((lo + i) as real >= dom.max.value || lo + i == Trunc(dom.max.value)) ==>
              ClampedKey(dom, lo, i) == Int(Trunc(dom.max.value))
  {
    TruncOfInt(lo + i);
  }

  ghost predicate AllDistinct(dom: Domain, lo: int, n: nat) {
    forall i: nat, j: nat :: i < j < n ==> ClampedKey(dom, lo, i) != ClampedKey(dom, lo, j)
  }

  /** The bounds leave the key of the i-th row alone. */
  predicate KeyKept(dom: Domain, lo: int, i: nat) {
    KeptAt(dom, lo + i)
  }

  /** A unique numeric column of two rows or more stays unique under its CHECK bounds
      exactly when they leave every key alone. */
  lemma UniqueSurvivesBoundsIff(dom: Domain, lo: int, n: nat)
    requires n >= 2
    ensures AllDistinct(dom, lo, n) <==> forall i: nat :: i < n ==> KeyKept(dom, lo, i)
  {
    if forall i: nat :: i < n ==> KeyKept(dom, lo, i) {
      forall i: nat, j: nat | i < j < n
        ensures ClampedKey(dom, lo, i) != ClampedKey(dom, lo, j)
      {
        assert KeyKept(dom, lo, i) && KeyKept(dom, lo, j);
        KeptIff(dom.(values := []), Int(lo + i), 0);
        KeptIff(dom.(values := []), Int(lo + j), 0);
      }
    } else {
      var i: nat :| i < n && !KeyKept(dom, lo, i);
      if Consistent(dom) {
        NeighbourMeets(dom, lo, n, i);
      } else {
        InconsistentClamp(lo as real, dom.min, dom.max);
        InconsistentClamp((lo + 1) as real, dom.min, dom.max);
        assert ClampedKey(dom, lo, 0) == ClampedKey(dom, lo, 1);
      }
    }
  }

  /** A key that is moved meets the key beside it. */
  lemma NeighbourMeets(dom: Domain, lo: int, n: nat, i: nat)
    requires Consistent(dom) && n >= 2 && i < n && !KeptAt(dom, lo + i)
    ensures !AllDistinct(dom, lo, n)
  {
    var j := if i == 0 then 1 else i - 1;
    var k := lo + i;
    ClampedKeyIs(dom, lo, i);
    ClampedKeyIs(dom, lo, j);
    assert ClampedKey(dom, lo, i) == ClampedKey(dom, lo, j) by {
      NeighbourClamped(dom, lo + i, lo + j);
    }
    if i < j {
      assert !(ClampedKey(dom, lo, i) != ClampedKey(dom, lo, j));
    } else {
      assert !(ClampedKey(dom, lo, j) != ClampedKey(dom, lo, i));
    }
  }

  lemma NeighbourClamped(dom: Domain, k: int, j: int)
    requires Consistent(dom) && !KeptAt(dom, k) && (j == k + 1 || j == k - 1)
    ensures ClampNumeric(Int(k), dom.min, dom.max) == ClampNumeric(Int(j), dom.min, dom.max)
  {
    TruncOfInt(j);
  }

  /** The least key of a numeric column. */
  function FirstKey(c: Column): int {
    NumericInRange(c, 0, true)
  }

  /** The first n numbers of the column are consecutive int64s. */
  predicate CountsUp(c: Column, n: nat) {
    IsNumber(c) && (NumericBounds(c).Some? ==> IsInt64(NumericBounds(c).value.0)) && FirstKey(c) + n <= TWO_63
  }

  lemma KeysCountUp(c: Column, n: nat, i: nat)
    requires i < n && CountsUp(c, n)
    ensures NumericInRange(c, i, true) == FirstKey(c) + i
  {
  }

  // ----- a whole reference -----

  /** The keys of the child rows, from their assigned ordinals. */
  function ChildKeys(w: World, f: Fixture, to: string, fk: seq<int>, parentN: int): (ks: seq<Value>)
    requires forall i :: 0 <= i < |fk| ==> fk[i] >= 0
    ensures |ks| == |fk| && forall i :: 0 <= i < |fk| ==> ks[i] == ParentIdValue(w, f, to, fk[i], parentN)
  {
    seq(|fk|, i requires 0 <= i < |fk| => ParentIdValue(w, f, to, fk[i], parentN))
  }

  lemma {:induction false} SameOccurrences(ks: seq<Value>, k: Value, xs: seq<int>, x: int)
    requires |ks| == |xs| && forall i :: 0 <= i < |ks| ==> (ks[i] == k <==> xs[i] == x)
    ensures multiset(ks)[k] == multiset(xs)[x]
  {
    if ks != [] {
      var n := |ks| - 1;
      SameOccurrences(ks[..n], k, xs[..n], x);
      assert ks == ks[..n] + [ks[n]] && xs == xs[..n] + [xs[n]];
    }
  }

  /** A key occurs among the children as often as its ordinal was assigned. */
  lemma KeyOccurrences(w: World, f: Fixture, to: string, fk: seq<int>, parentN: int, limit: nat, x: nat)
    requires ParentIdColumn(f, to).Some? && TellsApart(w.lib, ParentIdColumn(f, to).value, limit)
    requires forall i :: 0 <= i < |fk| ==> 0 <= fk[i] < limit
    requires x < limit <= MAX_INT64
    ensures multiset(ChildKeys(w, f, to, fk, parentN))[ParentIdValue(w, f, to, x, parentN)] == multiset(fk)[x]
  {
    var ks, k := ChildKeys(w, f, to, fk, parentN), ParentIdValue(w, f, to, x, parentN);
    forall i | 0 <= i < |fk|
      ensures ks[i] == k <==> fk[i] == x
    {
      KeysTellApart(w, f, to, parentN, limit, fk[i], x);
    }
    SameOccurrences(ks, k, fk, x);
  }
}
