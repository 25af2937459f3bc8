/** Whether a deliberate orphan is one: what internal/hydrate/engine.go promises of the id of an
    ordinal past the parents, against the cells those parents generate. */
module Orphans {
  import opened CheckDomains
  import opened CheckSound
  import opened Columns
  import opened Digits
  import opened Engine
  import F = Fanouts
  import opened Holders
  import opened Keys
  import opened Numbers
  import opened Rendering
  import Sums
  import opened Values
  import opened Wrappers

  ghost predicate HasCells(held: Held, parentN: int) {
    forall p: nat :: p < parentN ==> HasCell(held, p)
  }

  /** Some parent's cell is the key of the ordinal. */
  ghost predicate Resolves(w: World, f: Fixture, to: string, held: Held, ord: nat, parentN: int)
    requires ParentIdColumn(f, to).Some? && HasCells(held, parentN)
  {
    exists p: nat :: p < parentN && ParentCell(w, f, to, held, p) == ParentIdValue(w, f, to, ord, parentN)
  }

  /** Every parent's cell is the key its children carry. */
  ghost predicate AllHold(w: World, f: Fixture, to: string, held: Held, parentN: int)
    requires ParentIdColumn(f, to).Some?
  {
    HasCells(held, parentN) && forall p: nat :: p < parentN ==> ParentHolds(w, f, to, held, p)
  }

  // ----- any parent column -----

  /** An orphan resolves exactly when the guards of the generator let its key through in some
      parent's row. */
  lemma OrphanMeetsIff(w: World, f: Fixture, to: string, held: Held, ord: nat, parentN: int)
    requires ParentIdColumn(f, to).Some? && HasCells(held, parentN) && ord <= MAX_INT64
    ensures Resolves(w, f, to, held, ord, parentN)
            <==> exists p: nat :: p < parentN && CellIs(w, f, to, held, p, KeyOf(w, f, to, ord))
  {
    KeyIsKeyOf(w, f, to, ord, parentN);
    var key := KeyOf(w, f, to, ord);
    forall p: nat | p < parentN
      ensures ParentCell(w, f, to, held, p) == key <==> CellIs(w, f, to, held, p, key)
    {
      CellIsIff(w, f, to, held, p, key);
    }
  }

  // ----- parents that hold their children's keys -----

  lemma HeldKeyMet(w: World, f: Fixture, to: string, held: Held, p: nat, ord: nat, parentN: int)
    requires ParentIdColumn(f, to).Some? && HasCell(held, p) && p < parentN && p <= MAX_INT64 && ord <= MAX_INT64
    requires ParentHolds(w, f, to, held, p)
    ensures var c := ParentIdColumn(f, to).value;
            ParentCell(w, f, to, held, p) == ParentIdValue(w, f, to, ord, parentN)
            <==> Holder(w.lib, c, p) == Holder(w.lib, c, ord)
  {
    ChildKeyMatchesIff(w, f, to, held, p, parentN);
    SameKeyIff(w, f, to, parentN, p, ord);
  }

  /** Where every parent holds its children's key, a deliberate orphan resolves exactly when the
      first ordinal with its value is a parent's. */
  lemma OrphanResolvesIff(w: World, f: Fixture, to: string, held: Held, ord: nat, parentN: int)
    requires ParentIdColumn(f, to).Some? && AllHold(w, f, to, held, parentN)
    requires parentN <= ord <= MAX_INT64
    ensures Resolves(w, f, to, held, ord, parentN) <==> Holder(w.lib, ParentIdColumn(f, to).value, ord) < parentN
  {
    var c := ParentIdColumn(f, to).value;
    var first := Holder(w.lib, c, ord);
    HeldAlike(w.lib, c, ord, first);
    SameValueIff(w.lib, c, ord, ord);
    if first < parentN {
      assert ParentHolds(w, f, to, held, first);
      HeldKeyMet(w, f, to, held, first, ord, parentN);
    }
    if Resolves(w, f, to, held, ord, parentN) {
      var p: nat :| p < parentN && ParentCell(w, f, to, held, p) == ParentIdValue(w, f, to, ord, parentN);
      HeldKeyMet(w, f, to, held, p, ord, parentN);
      HolderBelow(w.lib, c, p);
    }
  }

  /** The ordinals handed to orphans, one for each parent, resolve from the end of the first
      cycle on where values start over: 256 for an ipv4 key. */
  lemma RepeatingOrphanIff(w: World, f: Fixture, to: string, held: Held, ord: nat, parentN: int)
    requires ParentIdColumn(f, to).Some? && AllHold(w, f, to, held, parentN)
    requires var c := ParentIdColumn(f, to).value;
             Cycle(w.lib, c).Some? && !IsArray(c) && !Labelled(c) && !Cut(w.lib, c, ord)
    requires parentN <= ord < 2 * parentN && ord <= MAX_INT64
    ensures Resolves(w, f, to, held, ord, parentN) <==> ord >= Cycle(w.lib, ParentIdColumn(f, to).value).value
  {
    OrphanResolvesIff(w, f, to, held, ord, parentN);
    WithinTwo(ord, parentN, Cycle(w.lib, ParentIdColumn(f, to).value).value);
  }

  lemma WithinTwo(ord: nat, parentN: nat, p: nat)
    requires p > 0 && parentN <= ord < 2 * parentN
    ensures ord % p < parentN <==> ord >= p
  {
    if ord < p {
      SmallModulus(ord, p);
    } else if p > parentN {
      Quotient(ord, 1, ord - p, p);
    }
  }

  /** A plain-digit orphan under a width resolves exactly when its base-36 text reads as the
      decimal digits of a parent. */
  lemma DigitOrphanIff(w: World, f: Fixture, to: string, held: Held, ord: nat, parentN: int, width: nat)
    requires ParentIdColumn(f, to).Some? && AllHold(w, f, to, held, parentN)
    requires parentN <= ord <= MAX_INT64 && ord < Power(36, width)
    requires ParentIdColumn(f, to).value.format == NumericString
             && EffectiveWidth(ParentIdColumn(f, to).value) == Some(width)
    ensures Resolves(w, f, to, held, ord, parentN)
            <==> LooksDecimal(ord, width) && ValueOf(Numeral(ord, 36), 10) < parentN
  {
    OrphanResolvesIff(w, f, to, held, ord, parentN);
    DigitsOf(w.lib, ParentIdColumn(f, to).value, ord);
    ShortTail(ord, width);
    NumeralWritten(ord, 36);
  }

  // ----- parents that do not -----

  /** The bounds move the integer a onto another one, b. */
  predicate MovedOnto(dom: Domain, a: int, b: int) {
    if dom.min.Some? && dom.max.Some? && dom.min.value > dom.max.value then b == Trunc(dom.max.value)
    else
      || (dom.min.Some? && a <= Trunc(dom.min.value) == b)
      || (dom.max.Some? && a >= Trunc(dom.max.value) == b)
  }

  lemma MovedOntoIff(dom: Domain, a: int, b: int)
    requires a != b
    ensures Trunc(ClampReal(a as real, dom.min, dom.max)) == b <==> MovedOnto(dom, a, b)
  {
    ClampedInt(dom, a);
  }

  /** A unique column of numbers whose rows come from their ordinals. */
  predicate NumbersOwn(w: World, f: Fixture, to: string, held: Held)
    requires ParentIdColumn(f, to).Some?
  {
    var c := ParentIdColumn(f, to).value;
    OrdinalsOwn(w, f, to, held) && IsNumber(c) && IsNumber(BaseColumn(f.types, c))
  }

  lemma NumberCellIff(w: World, f: Fixture, to: string, held: Held, p: nat, ord: nat)
    requires ParentIdColumn(f, to).Some? && NumbersOwn(w, f, to, held) && p < ord <= MAX_INT64
    ensures var c, dom := ParentIdColumn(f, to).value, ParentDomain(w, f, to);
            CellIs(w, f, to, held, p, KeyOf(w, f, to, ord))
            <==> !NullAt(c, p) && MovedOnto(dom, NumericInRange(c, p, true), NumericInRange(c, ord, true))
  {
    var c, dom := ParentIdColumn(f, to).value, ParentDomain(w, f, to);
    NumberIgnoresType(c, ResolveType(f.types, c.typ), p);
    NumberIff(c, p, ord);
    MovedOntoIff(dom, NumericInRange(c, p, true), NumericInRange(c, ord, true));
  }

  /** A numeric orphan resolves exactly when the CHECK bounds move some parent onto its number. */
  lemma MovedOrphanIff(w: World, f: Fixture, to: string, held: Held, ord: nat, parentN: int)
    requires ParentIdColumn(f, to).Some? && NumbersOwn(w, f, to, held) && parentN <= ord <= MAX_INT64
    ensures HasCells(held, parentN)
    ensures var c, dom := ParentIdColumn(f, to).value, ParentDomain(w, f, to);
            Resolves(w, f, to, held, ord, parentN)
            <==> exists p: nat ::
                   p < parentN && !NullAt(c, p)
                   && MovedOnto(dom, NumericInRange(c, p, true), NumericInRange(c, ord, true))
  {
    OrphanMeetsIff(w, f, to, held, ord, parentN);
    forall p: nat | p < parentN
      ensures var c, dom := ParentIdColumn(f, to).value, ParentDomain(w, f, to);
              CellIs(w, f, to, held, p, KeyOf(w, f, to, ord))
              <==> !NullAt(c, p) && MovedOnto(dom, NumericInRange(c, p, true), NumericInRange(c, ord, true))
    {
      NumberCellIff(w, f, to, held, p, ord);
    }
  }

  /** Where lesser numbers end up as b. */
  ghost predicate RaisedTo(dom: Domain, b: int) {
    if Consistent(dom) then dom.min.Some? && Trunc(dom.min.value) == b else Trunc(dom.max.value) == b
  }

  /** A column whose first row is NULL is NULL throughout. */
  lemma NullFromStart(c: Column, p: nat)
    ensures NullAt(c, 0) ==> NullAt(c, p)
  {
  }

  /** Keys that count up inside int64 are moved onto an orphan's number only from below: by a
      lower bound that truncates to it, or by bounds that exclude each other and leave it. */
  lemma NumberOrphanIff(w: World, f: Fixture, to: string, held: Held, ord: nat, parentN: int)
    requires ParentIdColumn(f, to).Some? && NumbersOwn(w, f, to, held) && 1 <= parentN <= ord <= MAX_INT64
    requires CountsUp(ParentIdColumn(f, to).value, ord + 1)
    ensures HasCells(held, parentN)
    ensures var c, dom := ParentIdColumn(f, to).value, ParentDomain(w, f, to);
            Resolves(w, f, to, held, ord, parentN)
            <==> !NullAt(c, 0)
                 && if Consistent(dom) then dom.min.Some? && Trunc(dom.min.value) == FirstKey(c) + ord
                    else Trunc(dom.max.value) == FirstKey(c) + ord
  {
    var c, dom := ParentIdColumn(f, to).value, ParentDomain(w, f, to);
    MovedOrphanIff(w, f, to, held, ord, parentN);
    KeysCountUp(c, ord + 1, ord);
    forall p: nat | p < parentN
      ensures !NullAt(c, p) && MovedOnto(dom, NumericInRange(c, p, true), NumericInRange(c, ord, true))
              <==> !NullAt(c, 0) && RaisedTo(dom, FirstKey(c) + ord) && !NullAt(c, p)
    {
      KeysCountUp(c, ord + 1, p);
      NullFromStart(c, p);
    }
    assert RaisedTo(dom, FirstKey(c) + ord) && !NullAt(c, 0) ==>
        !NullAt(c, 0) && MovedOnto(dom, NumericInRange(c, 0, true), NumericInRange(c, ord, true));
  }

  /** Under the CHECK that an id is at least 10, six parents counting up from 0 all become 10, and
      so the orphan of ordinal 10 resolves. */
  lemma OrphanCanResolve(w: World, f: Fixture, to: string)
    requires ParentIdColumn(f, to).Some? && NumbersOwn(w, f, to, Own) && !NullAt(ParentIdColumn(f, to).value, 0)
    requires NumericBounds(ParentIdColumn(f, to).value).None?
    requires ParentDomain(w, f, to) == Domain([], Some(10.0), None)
    ensures ParentIdValue(w, f, to, 10, 6) == Int(10) && Resolves(w, f, to, Own, 10, 6)
  {
    TruncOfInt(10);
    NumberOrphanIff(w, f, to, Own, 10, 6);
  }

  /** The domain's base renders every parent's ordinal like the column's own type. */
  ghost predicate RenderedAlike(w: World, f: Fixture, to: string, parentN: int)
    requires ParentIdColumn(f, to).Some?
  {
    forall p: nat :: p < parentN ==> SameRendering(w.lib, f.types, ParentIdColumn(f, to).value, p)
  }

  /** Any other orphan resolves exactly when some parent that is not NULL has its holder. */
  lemma RenderedOrphanIff(w: World, f: Fixture, to: string, held: Held, ord: nat, parentN: int)
    requires ParentIdColumn(f, to).Some? && OrdinalsOwn(w, f, to, held) && parentN <= ord <= MAX_INT64
    requires !IsNumber(ParentIdColumn(f, to).value) && RenderedAlike(w, f, to, parentN)
    ensures HasCells(held, parentN)
    ensures var c := ParentIdColumn(f, to).value;
            Resolves(w, f, to, held, ord, parentN)
            <==> exists p: nat :: p < parentN && !NullAt(c, p) && Holder(w.lib, c, p) == Holder(w.lib, c, ord)
  {
    var c := ParentIdColumn(f, to).value;
    OrphanMeetsIff(w, f, to, held, ord, parentN);
    forall p: nat | p < parentN
      ensures CellIs(w, f, to, held, p, KeyOf(w, f, to, ord))
              <==> !NullAt(c, p) && Holder(w.lib, c, p) == Holder(w.lib, c, ord)
    {
      assert SameRendering(w.lib, f.types, c, p);
      SameValueIff(w.lib, c, p, ord);
    }
  }

  /** Over a borrowed column that renders alike, an orphan resolves exactly when some parent row
      was assigned an ordinal with its value. */
  lemma BorrowedOrphanIff(w: World, f: Fixture, to: string, held: Held, ord: nat, parentN: int)
    requires ParentIdColumn(f, to).Some? && held.Borrowed? && HasCells(held, parentN) && parentN <= ord <= MAX_INT64
    requires ParentIdColumn(f, held.up).Some? && Alike(ParentIdColumn(f, to).value, ParentIdColumn(f, held.up).value)
    ensures var c := ParentIdColumn(f, to).value;
            Resolves(w, f, to, held, ord, parentN)
            <==> exists p: nat ::
                   p < parentN && HasCell(held, p) && Holder(w.lib, c, held.pk[p]) == Holder(w.lib, c, ord)
  {
    var c := ParentIdColumn(f, to).value;
    OrphanMeetsIff(w, f, to, held, ord, parentN);
    forall p: nat | p < parentN
      ensures CellIs(w, f, to, held, p, KeyOf(w, f, to, ord))
              <==> HasCell(held, p) && Holder(w.lib, c, held.pk[p]) == Holder(w.lib, c, ord)
    {
      assert HasCell(held, p);
      BorrowedCellIff(w, f, to, held, p, ord);
    }
  }

  lemma BorrowedCellIff(w: World, f: Fixture, to: string, held: Held, p: nat, ord: nat)
    requires ParentIdColumn(f, to).Some? && held.Borrowed? && HasCell(held, p) && ord <= MAX_INT64
    requires ParentIdColumn(f, held.up).Some? && Alike(ParentIdColumn(f, to).value, ParentIdColumn(f, held.up).value)
    ensures var c := ParentIdColumn(f, to).value;
            CellIs(w, f, to, held, p, KeyOf(w, f, to, ord)) <==> Holder(w.lib, c, held.pk[p]) == Holder(w.lib, c, ord)
  {
    var c := ParentIdColumn(f, to).value;
    AlikeRender(w.lib, c, ParentIdColumn(f, held.up).value, held.pk[p]);
    SameValueIff(w.lib, c, held.pk[p], ord);
  }

  // ----- a whole reference -----

  /** Where keys are told apart and every parent holds its own, an ordinal resolves exactly when
      it is a parent's. */
  lemma ResolvesBelow(w: World, f: Fixture, to: string, held: Held, x: nat, parentN: int)
    requires 1 <= parentN && x < 2 * parentN <= MAX_INT64
    requires ParentIdColumn(f, to).Some? && TellsApart(w.lib, ParentIdColumn(f, to).value, 2 * parentN)
    requires AllHold(w, f, to, held, parentN)
    ensures Resolves(w, f, to, held, x, parentN) <==> x < parentN
  {
    if x < parentN {
      assert ParentHolds(w, f, to, held, x);
      ChildKeyMatchesIff(w, f, to, held, x, parentN);
    } else {
      OrphanResolvesIff(w, f, to, held, x, parentN);
      FirstsApart(w.lib, ParentIdColumn(f, to).value, 2 * parentN, x);
    }
  }

  /** The rows of the orphan groups are those that match no parent. */
  lemma RowsMiss(w: World, f: Fixture, to: string, held: Held, fk: seq<int>, parentN: int, orphanRows: int)
    requires 1 <= parentN && 2 * parentN <= MAX_INT64
    requires ParentIdColumn(f, to).Some? && TellsApart(w.lib, ParentIdColumn(f, to).value, 2 * parentN)
    requires AllHold(w, f, to, held, parentN)
    requires forall i :: 0 <= i < |fk| ==> 0 <= fk[i] < 2 * parentN && (fk[i] >= parentN <==> i < orphanRows)
    ensures forall i :: 0 <= i < |fk| ==> (i < orphanRows <==> !Resolves(w, f, to, held, fk[i], parentN))
  {
    forall i | 0 <= i < |fk|
      ensures i < orphanRows <==> !Resolves(w, f, to, held, fk[i], parentN)
    {
      ResolvesBelow(w, f, to, held, fk[i], parentN);
    }
  }

  /** The key of group p's ordinal. */
  function GroupKey(w: World, f: Fixture, to: string, p: nat, orphans: int, parentN: int): Value
    requires 0 <= orphans && 1 <= parentN
  {
    ParentIdValue(w, f, to, F.GroupOrdinal(p, orphans, parentN), parentN)
  }

  lemma GroupsOccur(w: World, f: Fixture, to: string, fk: seq<int>, orphans: int, parentN: int)
    requires 0 <= orphans <= parentN && 1 <= parentN && 2 * parentN <= MAX_INT64
    requires ParentIdColumn(f, to).Some? && TellsApart(w.lib, ParentIdColumn(f, to).value, 2 * parentN)
    requires forall i :: 0 <= i < |fk| ==> 0 <= fk[i] < 2 * parentN
    ensures forall p: nat :: p < parentN ==>
              multiset(ChildKeys(w, f, to, fk, parentN))[GroupKey(w, f, to, p, orphans, parentN)]
              == multiset(fk)[F.GroupOrdinal(p, orphans, parentN)]
  {
    forall p: nat | p < parentN
      ensures multiset(ChildKeys(w, f, to, fk, parentN))[GroupKey(w, f, to, p, orphans, parentN)]
              == multiset(fk)[F.GroupOrdinal(p, orphans, parentN)]
    {
      var x: nat := if p < orphans then parentN + p else p;
      KeyOccurrences(w, f, to, fk, parentN, 2 * parentN, x);
    }
  }

  /** The fan-out reaches the cells: the key of group p's ordinal stands in exactly as many
      child rows as the allocator gives the group, and, where every parent holds its key, a row
      matches some parent's cell exactly when its group is no orphan group, that is from row
      Sum(counts[..orphans]) on. */
  lemma FanoutReachesCells(w: World, f: Fixture, to: string, held: Held, fk: seq<int>, counts: seq<int>, orphans: int,
                           fo: F.Fanout, of: Option<real>, childN: int, parentN: int, declaredChild: int)
    requires parentN >= 1 && childN >= 1
    requires F.FanoutAssignment(fk, counts, orphans, w.pow, fo, of, childN, parentN, declaredChild)
    requires ParentIdColumn(f, to).Some? && TellsApart(w.lib, ParentIdColumn(f, to).value, 2 * parentN)
    requires 2 * parentN <= MAX_INT64 && HasCells(held, parentN)
    ensures |fk| == childN && |counts| == parentN && 0 <= orphans <= parentN
    ensures forall i :: 0 <= i < childN ==> fk[i] >= 0
    ensures forall p: nat :: p < parentN ==>
              multiset(ChildKeys(w, f, to, fk, parentN))[GroupKey(w, f, to, p, orphans, parentN)]
              == F.GroupRows(counts, fo, parentN, childN, p)
    ensures AllHold(w, f, to, held, parentN) ==>
              forall i :: 0 <= i < childN ==>
                (i < Sums.Sum(counts[..orphans]) <==> !Resolves(w, f, to, held, fk[i], parentN))
  {
    F.AssignmentFollowsCounts(fk, counts, orphans, w.pow, fo, of, childN, parentN, declaredChild);
    F.AssignmentOrphanRows(fk, counts, orphans, w.pow, fo, of, childN, parentN, declaredChild);
    GroupsOccur(w, f, to, fk, orphans, parentN);
    if AllHold(w, f, to, held, parentN) {
      RowsMiss(w, f, to, held, fk, parentN, Sums.Sum(counts[..orphans]));
    }
  }
}
