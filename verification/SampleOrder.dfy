/** When the order of the samples cannot change the merged JSON skeleton. The source
    claims it never can; that is false once the same path holds different structures,
    because the "mixed" text is then merged like any other leaf. OrderFree is the exact
    condition. */
module SampleOrder {
  import opened Order
  import opened Skeletons
  import opened Wrappers

  // ----- the samples below one step of a path -----

  datatype Step = Key(name: string) | Item

  ghost function Child(x: Skeleton, step: Step): Option<Skeleton> {
    match step
    case Key(k) => if x.Object? && k in x.fields then Some(x.fields[k]) else None
    case Item => if x.Array? then Some(x.elem) else None
  }

  /** The skeletons found one step down, in sample order. */
  ghost function Under(s: seq<Skeleton>, step: Step): seq<Skeleton> {
    if s == [] then []
    else
      var n := |s| - 1;
      var c := Child(s[n], step);
      Under(s[..n], step) + (if c.Some? then [c.value] else [])
  }

  lemma UnderSnoc(init: seq<Skeleton>, last: Skeleton, step: Step)
    ensures Under(init + [last], step) ==
            if Child(last, step).Some? then Under(init, step) + [Child(last, step).value] else Under(init, step)
  {
    assert (init + [last])[..|init|] == init;
  }

  lemma {:induction false} UnderAppend(s: seq<Skeleton>, t: seq<Skeleton>, step: Step)
    ensures Under(s + t, step) == Under(s, step) + Under(t, step)
  {
    if t == [] {
      assert s + t == s;
    } else {
      var n := |t| - 1;
      UnderAppend(s, t[..n], step);
      UnderSnoc(s + t[..n], t[n], step);
      assert s + t == (s + t[..n]) + [t[n]];
    }
  }

  ghost predicate AllObjects(s: seq<Skeleton>) {
    forall x :: x in s ==> x.Object?
  }

  ghost predicate AllArrays(s: seq<Skeleton>) {
    forall x :: x in s ==> x.Array?
  }

  ghost predicate AllLeaves(s: seq<Skeleton>) {
    forall x :: x in s ==> x.Leaf?
  }

  ghost function Keys(s: seq<Skeleton>): set<string> {
    set x, k | x in s && x.Object? && k in x.fields :: k
  }

  lemma KeysSnoc(init: seq<Skeleton>, last: Skeleton)
    requires last.Object?
    ensures Keys(init + [last]) == Keys(init) + last.fields.Keys
  {
  }

  lemma {:induction false} UnderKeyNonEmpty(s: seq<Skeleton>, k: string)
    ensures Under(s, Key(k)) != [] <==> k in Keys(s)
  {
    if s != [] {
      var n := |s| - 1;
      UnderKeyNonEmpty(s[..n], k);
      assert s == s[..n] + [s[n]];
    }
  }

  lemma MergeObjects(a: Skeleton, b: Skeleton)
    requires a.Object? && b.Object?
    ensures Merge(a, b).Object? && Merge(a, b).fields.Keys == a.fields.Keys + b.fields.Keys
    ensures forall k :: k in Merge(a, b).fields ==>
              Merge(a, b).fields[k] == if k in a.fields && k in b.fields then Merge(a.fields[k], b.fields[k])
                                       else if k in a.fields then a.fields[k] else b.fields[k]
  {
  }

  /** Merging objects merges the skeletons under each key. */
  lemma {:induction false} FoldObjects(s: seq<Skeleton>)
    requires s != [] && AllObjects(s)
    ensures Fold(s).Object? && Fold(s).fields.Keys == Keys(s)
    ensures forall k :: k in Keys(s) ==> Under(s, Key(k)) != [] && Fold(s).fields[k] == Fold(Under(s, Key(k)))
  {
    var n := |s| - 1;
    var init, last := s[..n], s[n];
    assert s == init + [last];
    assert last in s;
    KeysSnoc(init, last);
    if n == 0 {
      forall k | k in Keys(s)
        ensures Under(s, Key(k)) == [last.fields[k]]
      {
        UnderSnoc(init, last, Key(k));
      }
    } else {
      FoldObjects(init);
      FoldSnoc(init, last);
      MergeObjects(Fold(init), last);
      forall k | k in Keys(s)
        ensures Under(s, Key(k)) != [] && Fold(s).fields[k] == Fold(Under(s, Key(k)))
      {
        FoldKey(init, last, k);
      }
    }
  }

  lemma FoldKey(init: seq<Skeleton>, last: Skeleton, k: string)
    requires init != [] && last.Object? && Fold(init).Object? && Fold(init).fields.Keys == Keys(init)
    requires k in Keys(init) ==> Under(init, Key(k)) != [] && Fold(init).fields[k] == Fold(Under(init, Key(k)))
    requires k in Keys(init) || k in last.fields
    ensures k in Merge(Fold(init), last).fields
    ensures Under(init + [last], Key(k)) != []
    ensures Merge(Fold(init), last).fields[k] == Fold(Under(init + [last], Key(k)))
  {
    UnderSnoc(init, last, Key(k));
    UnderKeyNonEmpty(init, k);
    MergeObjects(Fold(init), last);
    if k in last.fields && k in Keys(init) {
      FoldSnoc(Under(init, Key(k)), last.fields[k]);
    }
  }

  lemma {:induction false} FoldArrays(s: seq<Skeleton>)
    requires s != [] && AllArrays(s)
    ensures Under(s, Item) != [] && Fold(s) == Array(Fold(Under(s, Item)))
  {
    var n := |s| - 1;
    var init, last := s[..n], s[n];
    assert s == init + [last];
    assert last in s;
    UnderSnoc(init, last, Item);
    if n > 0 {
      FoldArrays(init);
      FoldSnoc(init, last);
      FoldSnoc(Under(init, Item), last.elem);
    }
  }

  ghost function AllNames(s: seq<Skeleton>): set<string> {
    set x, n | x in s && x.Leaf? && n in Names(x.name) :: n
  }

  lemma {:induction false} FoldLeaves(s: seq<Skeleton>)
    requires s != [] && AllLeaves(s)
    ensures Fold(s).Leaf? && Names(Fold(s).name) == AllNames(s)
    ensures |s| > 1 ==> Fold(s).name == Render(AllNames(s))
  {
    var n := |s| - 1;
    var init, last := s[..n], s[n];
    assert s == init + [last];
    assert last in s;
    assert AllNames(s) == AllNames(init) + Names(last.name);
    if n > 0 {
      FoldLeaves(init);
      FoldSnoc(init, last);
      NamesOfUnion(Fold(init).name, last.name);
    }
  }

  // ----- permutations -----

  ghost predicate Reordered(s: seq<Skeleton>, t: seq<Skeleton>) {
    multiset(s) == multiset(t)
  }

  lemma CancelOne<T>(a: multiset<T>, b: multiset<T>, x: T)
    requires a + multiset{x} == b + multiset{x}
    ensures a == b
  {
    assert a == (a + multiset{x}) - multiset{x};
    assert b == (b + multiset{x}) - multiset{x};
  }

  ghost function Without(s: seq<Skeleton>, i: nat): seq<Skeleton>
    requires i < |s|
  {
    s[..i] + s[i + 1..]
  }

  lemma WithoutPermutes(s: seq<Skeleton>, i: nat)
    requires i < |s|
    ensures Reordered(s, Without(s, i) + [s[i]])
    ensures multiset(s) == multiset(Without(s, i)) + multiset{s[i]}
  {
    assert s == s[..i] + [s[i]] + s[i + 1..];
  }

  lemma WithoutUnder(s: seq<Skeleton>, i: nat, step: Step)
    requires i < |s|
    ensures multiset(Under(s, step)) == multiset(Under(Without(s, i) + [s[i]], step))
  {
    assert s == s[..i] + ([s[i]] + s[i + 1..]);
    UnderAppend(s[..i], [s[i]] + s[i + 1..], step);
    UnderAppend([s[i]], s[i + 1..], step);
    UnderAppend(s[..i] + s[i + 1..], [s[i]], step);
    UnderAppend(s[..i], s[i + 1..], step);
  }

  lemma ReorderedSame(s: seq<Skeleton>, t: seq<Skeleton>)
    requires Reordered(s, t)
    ensures |s| == |t| && forall x :: x in s <==> x in t
  {
    assert |multiset(s)| == |s| && |multiset(t)| == |t|;
    assert forall x :: x in s <==> x in multiset(s);
    assert forall x :: x in t <==> x in multiset(t);
  }

  /** Reordering the samples reorders what lies one step down. */
  lemma {:induction false} ReorderedUnder(s: seq<Skeleton>, t: seq<Skeleton>, step: Step)
    requires Reordered(s, t)
    ensures Reordered(Under(s, step), Under(t, step))
  {
    ReorderedSame(s, t);
    if s != [] {
      var n := |s| - 1;
      var init, last := s[..n], s[n];
      assert s == init + [last];
      assert last in s && last in t;
      var i :| 0 <= i < |t| && t[i] == last;
      WithoutPermutes(t, i);
      WithoutUnder(t, i, step);
      CancelOne(multiset(init), multiset(Without(t, i)), last);
      ReorderedUnder(init, Without(t, i), step);
      UnderSnoc(init, last, step);
      UnderSnoc(Without(t, i), last, step);
    }
  }

  lemma {:induction false} UnderMember(s: seq<Skeleton>, step: Step, x: Skeleton) returns (i: nat)
    requires x in Under(s, step)
    ensures i < |s| && Child(s[i], step) == Some(x)
  {
    var n := |s| - 1;
    if Child(s[n], step) == Some(x) {
      i := n;
    } else {
      i := UnderMember(s[..n], step, x);
    }
  }

  /** Any reordering of what lies one step down is reached by reordering the samples. */
  lemma {:induction false} LiftReordering(s: seq<Skeleton>, step: Step, c: seq<Skeleton>) returns (t: seq<Skeleton>)
    requires Reordered(Under(s, step), c)
    ensures Reordered(s, t) && Under(t, step) == c
    decreases |c|
  {
    ReorderedSame(Under(s, step), c);
    if c == [] {
      t := s;
    } else {
      var n := |c| - 1;
      var x := c[n];
      assert c == c[..n] + [x];
      var i := UnderMember(s, step, x);
      var rest := Without(s, i);
      WithoutPermutes(s, i);
      WithoutUnder(s, i, step);
      UnderSnoc(rest, s[i], step);
      assert multiset(Under(rest, step)) + multiset{x} == multiset(c[..n]) + multiset{x};
      CancelOne(multiset(Under(rest, step)), multiset(c[..n]), x);
      var u := LiftReordering(rest, step, c[..n]);
      t := u + [s[i]];
      UnderSnoc(u, s[i], step);
    }
  }

  // ----- samples of different kinds -----

  datatype Kind = ObjectKind | ArrayKind | LeafKind

  ghost function KindOf(x: Skeleton): Kind {
    match x
    case Object(_) => ObjectKind
    case Array(_) => ArrayKind
    case Leaf(_) => LeafKind
  }

  ghost predicate Mixed(s: seq<Skeleton>) {
    exists x, y :: x in s && y in s && KindOf(x) != KindOf(y)
  }

  /** Merging this leaf into "mixed" leaves "mixed". */
  ghost predicate Absorbed(x: Skeleton) {
    x.Leaf? && Names(x.name) == {"mixed"}
  }

  /** Samples of different kinds merge to "mixed" in every order: there is no leaf
      among them, or none that adds a name, or a single one beside one other kind. */
  ghost predicate MixedFree(m: multiset<Skeleton>) {
    || (forall x :: x in m ==> !x.Leaf?)
    || (forall x :: x in m && x.Leaf? ==> Absorbed(x))
    || (&& (exists x :: x in m && LoneLeaf(m, x))
        && ((forall y :: y in m ==> !y.Object?) || (forall y :: y in m ==> !y.Array?)))
  }

  ghost predicate LoneLeaf(m: multiset<Skeleton>, x: Skeleton) {
    x.Leaf? && m[x] == 1 && forall y :: y in m && y.Leaf? ==> y == x
  }

  lemma MixedText()
    ensures Names("mixed") == {"mixed"} && Render({"mixed"}) == "mixed"
  {
    SingleName("mixed");
  }

  /** Samples that include a leaf, or differ in kind, fold to a leaf. */
  lemma {:induction false} FoldsToLeaf(s: seq<Skeleton>)
    requires s != [] && (Mixed(s) || exists x :: x in s && x.Leaf?)
    ensures Fold(s).Leaf?
  {
    var n := |s| - 1;
    var init, last := s[..n], s[n];
    assert s == init + [last];
    if n > 0 {
      FoldSnoc(init, last);
      if Mixed(init) || exists x :: x in init && x.Leaf? {
        FoldsToLeaf(init);
      } else {
        FoldKind(init);
        assert init[0] in init;
      }
    }
  }

  lemma FoldKind(s: seq<Skeleton>)
    requires s != [] && !Mixed(s)
    ensures KindOf(Fold(s)) == KindOf(s[0])
  {
    assert s[0] in s;
    assert forall x :: x in s ==> KindOf(x) == KindOf(s[0]);
    match s[0]
    case Object(_) => FoldObjects(s);
    case Array(_) => FoldArrays(s);
    case Leaf(_) => FoldLeaves(s);
  }

  lemma {:induction false} MixedFreeFold(s: seq<Skeleton>)
    requires s != [] && Mixed(s) && MixedFree(multiset(s))
    ensures Fold(s) == MIXED
  {
    var n := |s| - 1;
    var init, last := s[..n], s[n];
    assert s == init + [last];
    assert n > 0;
    FoldSnoc(init, last);
    if Mixed(init) {
      MixedFreeInit(init, last);
      MixedFreeFold(init);
      MergeIntoMixed(last);
    } else {
      FoldKind(init);
      LastDiffers(init, last);
    }
  }

  lemma MergeIntoMixed(x: Skeleton)
    requires x.Leaf? ==> Absorbed(x)
    ensures Merge(MIXED, x) == MIXED
  {
    MixedText();
    if x.Leaf? {
      assert Names("mixed") + Names(x.name) == {"mixed"};
    }
  }

  lemma LastDiffers(init: seq<Skeleton>, last: Skeleton)
    requires init != [] && !Mixed(init) && Mixed(init + [last])
    ensures KindOf(init[0]) != KindOf(last)
  {
    assert init[0] in init;
    var x, y :| x in init + [last] && y in init + [last] && KindOf(x) != KindOf(y);
    assert x in init || x == last;
    assert y in init || y == last;
  }

  /** Dropping a sample keeps MixedFree, and a leaf dropped from a mixed rest adds no name. */
  lemma MixedFreeInit(init: seq<Skeleton>, last: Skeleton)
    requires Mixed(init) && MixedFree(multiset(init) + multiset{last})
    ensures MixedFree(multiset(init))
    ensures last.Leaf? ==> Absorbed(last)
  {
    var m, m' := multiset(init) + multiset{last}, multiset(init);
    assert forall x :: x in init <==> x in m';
    assert last in m;
    if exists x :: x in m && LoneLeaf(m, x) {
      var x :| x in m && LoneLeaf(m, x);
      if x != last && x in m' {
        assert LoneLeaf(m', x);
      }
    }
  }

  /** A branch put last gives "mixed". */
  lemma BranchLast(s: seq<Skeleton>, leaf: Skeleton) returns (t: seq<Skeleton>)
    requires Mixed(s) && leaf in s && leaf.Leaf?
    ensures Reordered(s, t) && t != [] && Fold(t) == MIXED
  {
    var x, y :| x in s && y in s && KindOf(x) != KindOf(y);
    var i :| 0 <= i < |s| && !s[i].Leaf?;
    var rest := Without(s, i);
    WithoutPermutes(s, i);
    t := rest + [s[i]];
    ReorderedSame(s, t);
    assert leaf in rest;
    FoldsToLeaf(rest);
    FoldSnoc(rest, s[i]);
  }

  /** A leaf that adds a name, put last, keeps that name. */
  lemma LeafLast(s: seq<Skeleton>, j: nat) returns (u: seq<Skeleton>)
    requires j < |s| && s[j].Leaf? && !Absorbed(s[j]) && !MixedFree(multiset(s))
    ensures Reordered(s, u) && u != [] && Fold(u) != MIXED
  {
    var rest := Without(s, j);
    WithoutPermutes(s, j);
    u := rest + [s[j]];
    MixedRest(rest, s[j]);
    FoldsToLeaf(rest);
    FoldSnoc(rest, s[j]);
    NamesOfUnion(Fold(rest).name, s[j].name);
    NamesNonEmpty(s[j].name);
    MixedText();
  }

  /** Samples that are not MixedFree have two orders with different results. */
  lemma MixedWitness(s: seq<Skeleton>) returns (t: seq<Skeleton>, u: seq<Skeleton>)
    requires s != [] && Mixed(s) && !MixedFree(multiset(s))
    ensures Reordered(s, t) && Reordered(s, u) && t != [] && u != []
    ensures Fold(t) == MIXED && Fold(u) != MIXED
  {
    assert forall x :: x in multiset(s) ==> x in s;
    var j :| 0 <= j < |s| && s[j].Leaf? && !Absorbed(s[j]);
    t := BranchLast(s, s[j]);
    u := LeafLast(s, j);
  }

  lemma MixedRest(rest: seq<Skeleton>, leaf: Skeleton)
    requires leaf.Leaf? && !MixedFree(multiset(rest) + multiset{leaf})
    ensures rest != [] && (Mixed(rest) || exists x :: x in rest && x.Leaf?)
  {
    var m, m' := multiset(rest) + multiset{leaf}, multiset(rest);
    assert forall x :: x in rest <==> x in m';
    assert forall x :: x in m <==> x in rest || x == leaf;
    if forall x :: x in rest ==> !x.Leaf? {
      assert leaf !in m';
      assert LoneLeaf(m, leaf);
      var a :| a in m && a.Object?;
      var b :| b in m && b.Array?;
      assert a in rest && b in rest && KindOf(a) != KindOf(b);
    }
  }

  // ----- the theorem -----

  /** At every path, the samples have one kind, or kinds that merge to "mixed" in any order. */
  ghost predicate OrderFree(s: seq<Skeleton>)
    requires s != []
    decreases Fold(s)
  {
    if AllLeaves(s) then true
    else if AllArrays(s) then
      FoldArrays(s);
      OrderFree(Under(s, Item))
    else if AllObjects(s) then
      FoldObjects(s);
      forall k :: k in Keys(s) ==> OrderFree(Under(s, Key(k)))
    else MixedFree(multiset(s))
  }

  lemma {:induction false} OrderFreeSuffices(s: seq<Skeleton>, t: seq<Skeleton>)
    requires s != [] && t != [] && OrderFree(s) && Reordered(s, t)
    ensures Fold(s) == Fold(t)
    decreases Fold(s)
  {
    ReorderedSame(s, t);
    if AllLeaves(s) {
      FoldLeaves(s);
      FoldLeaves(t);
      assert AllNames(s) == AllNames(t);
      if |s| == 1 {
        assert t[0] in s;
      }
    } else if AllArrays(s) {
      FoldArrays(s);
      FoldArrays(t);
      ReorderedUnder(s, t, Item);
      OrderFreeSuffices(Under(s, Item), Under(t, Item));
    } else if AllObjects(s) {
      FoldObjects(s);
      FoldObjects(t);
      assert Keys(s) == Keys(t);
      forall k | k in Keys(s)
        ensures Fold(Under(s, Key(k))) == Fold(Under(t, Key(k)))
      {
        ReorderedUnder(s, t, Key(k));
        OrderFreeSuffices(Under(s, Key(k)), Under(t, Key(k)));
      }
      assert Fold(s).fields == Fold(t).fields;
    } else {
      OtherwiseMixed(s);
      var x, y :| x in s && y in s && KindOf(x) != KindOf(y);
      assert x in t && y in t;
      MixedFreeFold(s);
      MixedFreeFold(t);
    }
  }

  lemma OtherwiseMixed(s: seq<Skeleton>)
    requires s != [] && !AllLeaves(s) && !AllArrays(s) && !AllObjects(s)
    ensures Mixed(s)
  {
    assert s[0] in s;
    if !Mixed(s) {
      assert forall x :: x in s ==> KindOf(x) == KindOf(s[0]);
    }
  }

  lemma {:induction false} OrderMatters(s: seq<Skeleton>) returns (t: seq<Skeleton>)
    requires s != [] && !OrderFree(s)
    ensures Reordered(s, t) && t != [] && Fold(s) != Fold(t)
    decreases Fold(s)
  {
    if AllArrays(s) {
      FoldArrays(s);
      var c := OrderMatters(Under(s, Item));
      t := LiftReordering(s, Item, c);
      ReorderedSame(s, t);
      FoldArrays(t);
    } else if AllObjects(s) {
      FoldObjects(s);
      var k :| k in Keys(s) && !OrderFree(Under(s, Key(k)));
      var c := OrderMatters(Under(s, Key(k)));
      t := LiftReordering(s, Key(k), c);
      ReorderedSame(s, t);
      FoldObjects(t);
      UnderKeyNonEmpty(t, k);
    } else {
      OtherwiseMixed(s);
      var a, b := MixedWitness(s);
      t := if Fold(a) != Fold(s) then a else b;
    }
  }

  /** The merged skeleton is the same for every order of the samples if and only if
      the samples are OrderFree. */
  lemma OrderIndependentIff(s: seq<Skeleton>)
    requires s != []
    ensures OrderFree(s) <==> forall t :: Reordered(s, t) ==> t != [] && Fold(t) == Fold(s)
  {
    if OrderFree(s) {
      forall t | Reordered(s, t)
        ensures t != [] && Fold(t) == Fold(s)
      {
        ReorderedSame(s, t);
        OrderFreeSuffices(s, t);
      }
    } else {
      var t := OrderMatters(s);
    }
  }

  /** Samples that pairwise agree in structure wherever they overlap are OrderFree. */
  lemma {:induction false} SameStructureIsOrderFree(s: seq<Skeleton>)
    requires s != [] && forall x, y :: x in s && y in s ==> SameStructure(x, y)
    ensures OrderFree(s)
    decreases Fold(s)
  {
    assert s[0] in s;
    match s[0]
    case Leaf(_) =>
      assert AllLeaves(s);
    case Array(_) =>
      assert AllArrays(s);
      FoldArrays(s);
      SameStructureUnder(s, Item);
      SameStructureIsOrderFree(Under(s, Item));
    case Object(_) =>
      assert AllObjects(s);
      FoldObjects(s);
      forall k | k in Keys(s)
        ensures OrderFree(Under(s, Key(k)))
      {
        SameStructureUnder(s, Key(k));
        SameStructureIsOrderFree(Under(s, Key(k)));
      }
  }

  lemma SameStructureUnder(s: seq<Skeleton>, step: Step)
    requires forall x, y :: x in s && y in s ==> SameStructure(x, y)
    ensures forall x, y :: x in Under(s, step) && y in Under(s, step) ==> SameStructure(x, y)
  {
    forall x, y | x in Under(s, step) && y in Under(s, step)
      ensures SameStructure(x, y)
    {
      var i := UnderMember(s, step, x);
      var j := UnderMember(s, step, y);
      assert s[i] in s && s[j] in s;
      assert SameStructure(s[i], s[j]);
    }
  }

  /** jsonSkeleton gives the same shape for any order of its samples when their
      skeletons are OrderFree. */
  lemma JsonSkeletonOrderFree(samples: seq<Option<Json>>, others: seq<Option<Json>>)
    requires multiset(samples) == multiset(others)
    requires Parsed(samples) != [] ==> OrderFree(Parsed(samples))
    ensures Parsed(samples) == [] <==> Parsed(others) == []
    ensures Parsed(samples) != [] ==> Fold(Parsed(samples)) == Fold(Parsed(others))
  {
    ParsedReordered(samples, others);
    ReorderedSame(Parsed(samples), Parsed(others));
    if Parsed(samples) != [] {
      OrderFreeSuffices(Parsed(samples), Parsed(others));
    }
  }

  lemma {:induction false} ParsedAppend(s: seq<Option<Json>>, t: seq<Option<Json>>)
    ensures Parsed(s + t) == Parsed(s) + Parsed(t)
  {
    if t == [] {
      assert s + t == s;
    } else {
      var n := |t| - 1;
      ParsedAppend(s, t[..n]);
      assert (s + t)[..|s + t| - 1] == s + t[..n];
    }
  }

  lemma {:induction false} ParsedReordered(s: seq<Option<Json>>, t: seq<Option<Json>>)
    requires multiset(s) == multiset(t)
    ensures Reordered(Parsed(s), Parsed(t))
  {
    assert |multiset(s)| == |s| && |multiset(t)| == |t|;
    if s != [] {
      var n := |s| - 1;
      var last := s[n];
      assert s == s[..n] + [last];
      assert last in multiset(t);
      var i :| 0 <= i < |t| && t[i] == last;
      assert t == t[..i] + ([last] + t[i + 1..]);
      var rest := t[..i] + t[i + 1..];
      CancelOne(multiset(s[..n]), multiset(rest), last);
      ParsedReordered(s[..n], rest);
      ParsedAppend(s[..n], [last]);
      ParsedAppend(t[..i], t[i + 1..]);
      ParsedAppend(t[..i], [last] + t[i + 1..]);
      ParsedAppend([last], t[i + 1..]);
    }
  }

  lemma FoldThree(a: Skeleton, b: Skeleton, c: Skeleton)
    ensures Fold([a, b, c]) == Merge(Merge(a, b), c)
  {
    assert [a] + [b] == [a, b] && [a, b] + [c] == [a, b, c];
    FoldSnoc([a], b);
    FoldSnoc([a, b], c);
  }

  /** An object and two strings at one path: the order decides the shape. */
  lemma SampleOrderCanMatter()
    ensures Fold([Object(map[]), Leaf("string"), Leaf("string")]).Leaf?
    ensures Fold([Object(map[]), Leaf("string"), Leaf("string")])
            != Fold([Leaf("string"), Leaf("string"), Object(map[])])
  {
    FoldThree(Object(map[]), Leaf("string"), Leaf("string"));
    FoldThree(Leaf("string"), Leaf("string"), Object(map[]));
    NamesOfUnion("mixed", "string");
    MixedText();
    SingleName("string");
  }
}
