/** What the merged JSON skeleton says about the sampled documents (internal/profile/format_class.go):
    over a separate account of the values that stand at each path. */
module ShapeMeaning {
  import opened Order
  import opened SampleOrder
  import opened Skeletons
  import opened Wrappers

  // ----- what stands at a path of a document -----

  /** What is told of a place: an object, an array, or the name of a scalar's type. */
  datatype Mark = ObjectMark | ArrayMark | Name(text: string)

  function MarkOf(v: Json): Mark {
    match v
    case JObject(_) => ObjectMark
    case JArray(_) => ArrayMark
    case JString(_) => Name("string")
    case JNumber(_) => Name("number")
    case JBool(_) => Name("boolean")
    case JNull => Name("null")
  }

  /** Different kinds of values have different marks, and none has that of an empty array. */
  lemma MarksDiffer(v: Json, u: Json)
    ensures MarkOf(v) == MarkOf(u)
            <==> (v.JObject? && u.JObject?) || (v.JArray? && u.JArray?) || (v.JString? && u.JString?)
                 || (v.JNumber? && u.JNumber?) || (v.JBool? && u.JBool?) || (v.JNull? && u.JNull?)
    ensures MarkOf(v) != Name("empty") && MarkOf(v) != Name("mixed")
  {
    assert |"string"| == 6 && |"number"| == 6 && "string"[0] != "number"[0];
    assert |"boolean"| == 7 && |"null"| == 4 && |"empty"| == 5 && |"mixed"| == 5;
  }

  /** A value stands at the path of the document. */
  ghost predicate StandsAt(v: Json, path: seq<Step>, x: Json)
    decreases |path|
  {
    if path == [] then x == v
    else
      match path[0]
      case Key(k) => v.JObject? && k in v.fields && StandsAt(v.fields[k], path[1..], x)
      case Item => v.JArray? && exists i :: 0 <= i < |v.items| && StandsAt(v.items[i], path[1..], x)
  }

  /** The document has a value of that kind at the path, or an empty array that ends there. */
  ghost predicate Shows(v: Json, path: seq<Step>, m: Mark) {
    || (exists x :: StandsAt(v, path, x) && MarkOf(x) == m)
    || (m == Name("empty") && path != [] && path[|path| - 1] == Item && StandsAt(v, path[..|path| - 1], JArray([])))
  }

  ghost predicate AnyShows(docs: seq<Json>, path: seq<Step>, m: Mark) {
    exists i :: 0 <= i < |docs| && Shows(docs[i], path, m)
  }

  // ----- what a shape says about a path -----

  /** The node of a shape at a path. */
  function NodeAt(s: Skeleton, path: seq<Step>): Option<Skeleton>
    decreases |path|
  {
    if path == [] then Some(s)
    else
      match path[0]
      case Key(k) => if s.Object? && k in s.fields then NodeAt(s.fields[k], path[1..]) else None
      case Item => if s.Array? then NodeAt(s.elem, path[1..]) else None
  }

  predicate Marks(s: Skeleton, m: Mark) {
    match s
    case Object(_) => m == ObjectMark
    case Array(_) => m == ArrayMark
    case Leaf(text) => m.Name? && m.text in Names(text)
  }

  predicate Says(s: Skeleton, path: seq<Step>, m: Mark) {
    NodeAt(s, path).Some? && Marks(NodeAt(s, path).value, m)
  }

  /** The shape says of every path what the documents show there, and nothing more. */
  ghost predicate Tells(s: Skeleton, docs: seq<Json>) {
    forall path: seq<Step>, m: Mark :: Says(s, path, m) <==> AnyShows(docs, path, m)
  }

  /** No path has an object in one place and an array or a scalar in another; an empty array
      counts as a scalar where its items would stand. */
  ghost predicate Unmixed(docs: seq<Json>) {
    forall path: seq<Step>, m: Mark, n: Mark :: AnyShows(docs, path, m) && AnyShows(docs, path, n) ==> Alike(m, n)
  }

  predicate Alike(m: Mark, n: Mark) {
    m.ObjectMark? == n.ObjectMark? && m.ArrayMark? == n.ArrayMark?
  }

  // ----- one step down -----

  lemma ShowsHere(v: Json, m: Mark)
    ensures Shows(v, [], m) <==> m == MarkOf(v)
  {
    assert StandsAt(v, [], v);
  }

  lemma ShowsKey(v: Json, k: string, path: seq<Step>, m: Mark)
    ensures Shows(v, [Key(k)] + path, m) <==> v.JObject? && k in v.fields && Shows(v.fields[k], path, m)
  {
    var whole := [Key(k)] + path;
    assert whole[1..] == path;
    if path != [] {
      assert whole[..|whole| - 1][1..] == path[..|path| - 1] && whole[..|whole| - 1][0] == Key(k);
    }
    if v.JObject? && k in v.fields {
      assert forall x :: StandsAt(v, whole, x) <==> StandsAt(v.fields[k], path, x);
    }
  }

  lemma ShowsItem(v: Json, path: seq<Step>, m: Mark)
    ensures Shows(v, [Item] + path, m)
            <==> v.JArray? && (AnyShows(v.items, path, m) || (v.items == [] && path == [] && m == Name("empty")))
  {
    var whole := [Item] + path;
    assert whole[1..] == path;
    if v.JArray? {
      if path == [] {
        assert whole[..0] == [];
        assert StandsAt(v, [], JArray([])) <==> v.items == [];
      } else {
        assert whole[..|whole| - 1][1..] == path[..|path| - 1] && whole[..|whole| - 1][0] == Item;
        assert path[|path| - 1] == whole[|whole| - 1];
      }
      forall x
        ensures StandsAt(v, whole, x) <==> exists i :: 0 <= i < |v.items| && StandsAt(v.items[i], path, x)
      {
      }
      ItemShows(v, path, m);
    }
  }

  lemma ItemShows(v: Json, path: seq<Step>, m: Mark)
    requires v.JArray?
    ensures AnyShows(v.items, path, m) ==> Shows(v, [Item] + path, m)
  {
    if i :| 0 <= i < |v.items| && Shows(v.items[i], path, m) {
      var whole := [Item] + path;
      assert whole[1..] == path;
      if x :| StandsAt(v.items[i], path, x) && MarkOf(x) == m {
        assert StandsAt(v, whole, x);
      } else {
        var init := whole[..|whole| - 1];
        assert init[1..] == path[..|path| - 1] && init[0] == Item;
        assert StandsAt(v.items[i], init[1..], JArray([]));
        assert StandsAt(v, init, JArray([]));
      }
    }
  }

  // ----- merging -----

  /** A node says something, and all it says is of one kind. */
  lemma NodeMarks(s: Skeleton) returns (m: Mark)
    ensures Marks(s, m)
    ensures forall n :: Marks(s, n) ==> Alike(m, n)
  {
    match s
    case Object(_) => m := ObjectMark;
    case Array(_) => m := ArrayMark;
    case Leaf(text) =>
      NamesNonEmpty(text);
      var x :| x in Names(text);
      m := Name(x);
  }

  /** Shapes that never say different kinds of one path have one structure. */
  lemma {:induction false} AlikeIsSameStructure(a: Skeleton, b: Skeleton)
    requires forall path, m, n :: Says(a, path, m) && Says(b, path, n) ==> Alike(m, n)
    ensures SameStructure(a, b)
  {
    var m := NodeMarks(a);
    var n := NodeMarks(b);
    assert Says(a, [], m) && Says(b, [], n);
    match (a, b)
    case (Object(f), Object(g)) =>
      forall k | k in f && k in g
        ensures SameStructure(f[k], g[k])
      {
        forall path, p, q | Says(f[k], path, p) && Says(g[k], path, q)
          ensures Alike(p, q)
        {
          assert ([Key(k)] + path)[1..] == path;
          assert Says(a, [Key(k)] + path, p) && Says(b, [Key(k)] + path, q);
        }
        AlikeIsSameStructure(f[k], g[k]);
      }
    case (Array(x), Array(y)) =>
      forall path, p, q | Says(x, path, p) && Says(y, path, q)
        ensures Alike(p, q)
      {
        assert ([Item] + path)[1..] == path;
        assert Says(a, [Item] + path, p) && Says(b, [Item] + path, q);
      }
      AlikeIsSameStructure(x, y);
    case _ =>
  }

  /** Merging shapes of one structure says what either said. */
  lemma {:induction false} MergeSays(a: Skeleton, b: Skeleton, path: seq<Step>, m: Mark)
    requires SameStructure(a, b)
    ensures Says(Merge(a, b), path, m) <==> Says(a, path, m) || Says(b, path, m)
    decreases |path|
  {
    match (a, b)
    case (Object(f), Object(g)) =>
      if path != [] && path[0].Key? {
        var k := path[0].name;
        if k in f && k in g {
          MergeSays(f[k], g[k], path[1..], m);
        }
      }
    case (Array(x), Array(y)) =>
      if path != [] && path[0].Item? {
        MergeSays(x, y, path[1..], m);
      }
    case (Leaf(x), Leaf(y)) =>
      NamesOfUnion(x, y);
    case _ =>
  }

  lemma AnyShowsAppend(docs: seq<Json>, more: seq<Json>, path: seq<Step>, m: Mark)
    ensures AnyShows(docs + more, path, m) <==> AnyShows(docs, path, m) || AnyShows(more, path, m)
  {
    var all := docs + more;
    if i :| 0 <= i < |docs| && Shows(docs[i], path, m) {
      assert all[i] == docs[i];
    } else if i :| 0 <= i < |more| && Shows(more[i], path, m) {
      assert all[|docs| + i] == more[i];
    }
    if i :| 0 <= i < |all| && Shows(all[i], path, m) {
      if i < |docs| {
        assert Shows(docs[i], path, m);
      } else {
        assert Shows(more[i - |docs|], path, m);
      }
    }
  }

  lemma UnmixedParts(docs: seq<Json>, more: seq<Json>)
    requires Unmixed(docs + more)
    ensures Unmixed(docs) && Unmixed(more)
    ensures forall path, m, n :: AnyShows(docs, path, m) && AnyShows(more, path, n) ==> Alike(m, n)
  {
    forall path, m
      ensures AnyShows(docs, path, m) || AnyShows(more, path, m) ==> AnyShows(docs + more, path, m)
    {
      AnyShowsAppend(docs, more, path, m);
    }
  }

  lemma MergeTells(a: Skeleton, docs: seq<Json>, b: Skeleton, more: seq<Json>)
    requires Tells(a, docs) && Tells(b, more) && Unmixed(docs + more)
    ensures Tells(Merge(a, b), docs + more)
  {
    UnmixedParts(docs, more);
    AlikeIsSameStructure(a, b);
    forall path, m
      ensures Says(Merge(a, b), path, m) <==> AnyShows(docs + more, path, m)
    {
      MergeSays(a, b, path, m);
      AnyShowsAppend(docs, more, path, m);
    }
  }

  // ----- documents -----

  lemma OneShows(v: Json, path: seq<Step>, m: Mark)
    ensures AnyShows([v], path, m) <==> Shows(v, path, m)
  {
    assert [v][0] == v;
  }

  lemma Headed(path: seq<Step>)
    requires path != []
    ensures path == [path[0]] + path[1..]
  {
  }

  /** The shape of a document tells exactly what stands at its paths. */
  lemma {:induction false} SkeletonTells(v: Json)
    requires Unmixed([v])
    ensures Tells(SkeletonOf(v), [v])
    decreases v, 1
  {
    if v.JObject? {
      forall k | k in v.fields
        ensures Tells(SkeletonOf(v.fields[k]), [v.fields[k]])
      {
        FieldUnmixed(v, k);
        SkeletonTells(v.fields[k]);
      }
    } else if v.JArray? && v.items != [] {
      ItemsUnmixed(v);
      ItemsTell(v.items);
    }
    forall path, m
      ensures Says(SkeletonOf(v), path, m) <==> AnyShows([v], path, m)
    {
      OneShows(v, path, m);
      if path == [] {
        HereSaid(v, m);
      } else {
        Headed(path);
        BelowSaid(v, path[0], path[1..], m);
      }
    }
  }

  lemma LeafSays(name: string, path: seq<Step>, m: Mark)
    requires '|' !in name
    ensures Says(Leaf(name), path, m) <==> path == [] && m == Name(name)
  {
    SingleName(name);
  }

  lemma HereSaid(v: Json, m: Mark)
    ensures Says(SkeletonOf(v), [], m) <==> Shows(v, [], m)
  {
    ShowsHere(v, m);
    match v
    case JObject(_) =>
    case JArray(_) =>
    case JString(_) => LeafSays("string", [], m);
    case JNumber(_) => LeafSays("number", [], m);
    case JBool(_) => LeafSays("boolean", [], m);
    case JNull => LeafSays("null", [], m);
  }

  lemma BelowSaid(v: Json, step: Step, path: seq<Step>, m: Mark)
    requires v.JObject? ==> forall k :: k in v.fields ==> Tells(SkeletonOf(v.fields[k]), [v.fields[k]])
    requires v.JArray? && v.items != [] ==> Tells(SkeletonOfItems(v.items), v.items)
    ensures Says(SkeletonOf(v), [step] + path, m) <==> Shows(v, [step] + path, m)
  {
    assert ([step] + path)[1..] == path;
    match step
    case Key(k) =>
      ShowsKey(v, k, path, m);
      if v.JObject? && k in v.fields {
        OneShows(v.fields[k], path, m);
        assert Says(SkeletonOf(v.fields[k]), path, m) <==> AnyShows([v.fields[k]], path, m);
      }
    case Item =>
      ShowsItem(v, path, m);
      if v.JArray? && v.items != [] {
        assert Says(SkeletonOfItems(v.items), path, m) <==> AnyShows(v.items, path, m);
      } else if v.JArray? {
        LeafSays("empty", path, m);
        assert !AnyShows(v.items, path, m);
      }
  }

  lemma FieldUnmixed(v: Json, k: string)
    requires v.JObject? && k in v.fields && Unmixed([v])
    ensures Unmixed([v.fields[k]])
  {
    forall path, m, n | AnyShows([v.fields[k]], path, m) && AnyShows([v.fields[k]], path, n)
      ensures Alike(m, n)
    {
      FieldShows(v, k, path, m);
      FieldShows(v, k, path, n);
    }
  }

  lemma FieldShows(v: Json, k: string, path: seq<Step>, m: Mark)
    requires v.JObject? && k in v.fields && AnyShows([v.fields[k]], path, m)
    ensures AnyShows([v], [Key(k)] + path, m)
  {
    OneShows(v.fields[k], path, m);
    ShowsKey(v, k, path, m);
    OneShows(v, [Key(k)] + path, m);
  }

  lemma ItemsUnmixed(v: Json)
    requires v.JArray? && Unmixed([v])
    ensures Unmixed(v.items)
  {
    forall path, m, n | AnyShows(v.items, path, m) && AnyShows(v.items, path, n)
      ensures Alike(m, n)
    {
      ItemShows(v, path, m);
      ItemShows(v, path, n);
      OneShows(v, [Item] + path, m);
      OneShows(v, [Item] + path, n);
    }
  }

  lemma {:induction false} ItemsTell(items: seq<Json>)
    requires items != [] && Unmixed(items)
    ensures Tells(SkeletonOfItems(items), items)
    decreases items, 0
  {
    var n := |items| - 1;
    assert items == items[..n] + [items[n]];
    UnmixedParts(items[..n], [items[n]]);
    SkeletonTells(items[n]);
    if n == 0 {
      assert items == [items[0]];
    } else {
      ItemsTell(items[..n]);
      MergeTells(SkeletonOfItems(items[..n]), items[..n], SkeletonOf(items[n]), [items[n]]);
    }
  }

  // ----- the samples -----

  /** The documents among the samples. */
  function Documents(samples: seq<Option<Json>>): seq<Json> {
    if samples == [] then []
    else
      var n := |samples| - 1;
      Documents(samples[..n]) + (if samples[n].Some? then [samples[n].value] else [])
  }

  lemma {:induction false} SamplesTell(samples: seq<Option<Json>>)
    requires Unmixed(Documents(samples))
    ensures Parsed(samples) == [] <==> Documents(samples) == []
    ensures Parsed(samples) != [] ==> Tells(Fold(Parsed(samples)), Documents(samples))
  {
    if samples != [] {
      var n := |samples| - 1;
      var init := samples[..n];
      if samples[n].None? {
        assert Documents(samples) == Documents(init) && Parsed(samples) == Parsed(init);
        SamplesTell(init);
      } else {
        var v := samples[n].value;
        assert Documents(samples) == Documents(init) + [v];
        UnmixedParts(Documents(init), [v]);
        SamplesTell(init);
        SkeletonTells(v);
        if Parsed(init) == [] {
          assert Parsed(samples) == [SkeletonOf(v)] && Documents(samples) == [v];
        } else {
          FoldSnoc(Parsed(init), SkeletonOf(v));
          MergeTells(Fold(Parsed(init)), Documents(init), SkeletonOf(v), [v]);
        }
      }
    }
  }

  /** A shape that tells what the documents show says one kind of each path, so they are unmixed. */
  lemma TellingIsUnmixed(s: Skeleton, docs: seq<Json>)
    requires Tells(s, docs)
    ensures Unmixed(docs)
  {
    forall path, m, n | AnyShows(docs, path, m) && AnyShows(docs, path, n)
      ensures Alike(m, n)
    {
      assert Says(s, path, m) && Says(s, path, n);
    }
  }

  /** jsonSkeleton's result has exactly the paths of the sampled documents, and names at each of
      them exactly the kinds of the values there, if and only if no path mixes objects, arrays
      and scalars. */
  lemma MergedShapeTellsIff(samples: seq<Option<Json>>)
    requires Parsed(samples) != []
    ensures Tells(Fold(Parsed(samples)), Documents(samples)) <==> Unmixed(Documents(samples))
  {
    if Unmixed(Documents(samples)) {
      SamplesTell(samples);
    } else if Tells(Fold(Parsed(samples)), Documents(samples)) {
      TellingIsUnmixed(Fold(Parsed(samples)), Documents(samples));
    }
  }

  /** The leaf at a path then names the types of the scalars there, and "empty" where an array
      without items ends. */
  lemma LeafNames(samples: seq<Option<Json>>, path: seq<Step>, leaf: string)
    requires Parsed(samples) != [] && Unmixed(Documents(samples))
    requires NodeAt(Fold(Parsed(samples)), path) == Some(Leaf(leaf))
    ensures forall name :: name in Names(leaf) <==> AnyShows(Documents(samples), path, Name(name))
  {
    SamplesTell(samples);
    forall name
      ensures name in Names(leaf) <==> AnyShows(Documents(samples), path, Name(name))
    {
      assert Says(Fold(Parsed(samples)), path, Name(name)) <==> name in Names(leaf);
    }
  }
}
