/** internal/profile/format_class.go: the key skeleton of a JSON column, merged
    across a sample of documents. */
module Skeletons {
  import opened Order
  import opened Wrappers

  /** A decoded JSON document. */
  datatype Json =
    | JObject(fields: map<string, Json>)
    | JArray(items: seq<Json>)
    | JString(text: string)
    | JNumber(number: real)
    | JBool(truth: bool)
    | JNull

  /** Key names, structure and leaf type names. A leaf is the "a|b" text the source builds. */
  datatype Skeleton =
    | Object(fields: map<string, Skeleton>)
    | Array(elem: Skeleton)
    | Leaf(name: string)

  const MIXED: Skeleton := Leaf("mixed")

  // ----- unionLeaf -----

  /** strings.Split(s, "|"). */
  function Split(s: string): (parts: seq<string>)
    ensures parts != []
  {
    if s == "" then [""]
    else
      var rest := Split(s[1..]);
      if s[0] == '|' then [""] + rest else [[s[0]] + rest[0]] + rest[1..]
  }

  /** strings.Join(parts, "|"). */
  function Join(parts: seq<string>): string {
    if parts == [] then ""
    else if |parts| == 1 then parts[0]
    else parts[0] + "|" + Join(parts[1..])
  }

  ghost predicate PipeFree(parts: seq<string>) {
    forall i :: 0 <= i < |parts| ==> '|' !in parts[i]
  }

  lemma {:induction false} SplitPipeFree(s: string)
    ensures PipeFree(Split(s))
  {
    if s != "" {
      SplitPipeFree(s[1..]);
    }
  }

  lemma {:induction false} SplitPrefix(p: string, s: string)
    requires '|' !in p
    ensures Split(p + s) == [p + Split(s)[0]] + Split(s)[1..]
  {
    if p == "" {
      assert p + s == s && p + Split(s)[0] == Split(s)[0];
    } else {
      SplitPrefix(p[1..], s);
      assert (p + s)[1..] == p[1..] + s;
      assert [p[0]] + (p[1..] + Split(s)[0]) == p + Split(s)[0];
    }
  }

  lemma {:induction false} SplitJoin(parts: seq<string>)
    requires parts != [] && PipeFree(parts)
    ensures Split(Join(parts)) == parts
  {
    if |parts| == 1 {
      SplitPrefix(parts[0], "");
      assert parts[0] + "" == parts[0];
    } else {
      SplitJoin(parts[1..]);
      var rest := "|" + Join(parts[1..]);
      assert rest[1..] == Join(parts[1..]);
      assert parts[0] + "|" + Join(parts[1..]) == parts[0] + rest;
      SplitPrefix(parts[0], rest);
      assert parts[0] + "" == parts[0];
    }
  }

  /** The type names a leaf text stands for. */
  function Names(leaf: string): set<string> {
    Elements(Split(leaf))
  }

  /** The sorted, duplicate-free leaf text of a set of type names. */
  function Render(names: set<string>): string {
    Join(Sorted(names))
  }

  lemma NamesOfRender(names: set<string>)
    requires names != {} && forall n :: n in names ==> '|' !in n
    ensures Names(Render(names)) == names
  {
    var s := Sorted(names);
    forall i | 0 <= i < |s|
      ensures '|' !in s[i]
    {
      assert s[i] in Elements(s);
    }
    assert s != [];
    SplitJoin(s);
  }

  lemma NamesNonEmpty(leaf: string)
    ensures Names(leaf) != {} && forall n :: n in Names(leaf) ==> '|' !in n
  {
    SplitPipeFree(leaf);
    assert Split(leaf)[0] in Names(leaf);
  }

  function UnionLeaf(a: string, b: string): string {
    Render(Names(a) + Names(b))
  }

  lemma NamesOfUnion(a: string, b: string)
    ensures Names(UnionLeaf(a, b)) == Names(a) + Names(b)
  {
    NamesNonEmpty(a);
    NamesNonEmpty(b);
    NamesOfRender(Names(a) + Names(b));
  }

  /** unionLeaf: whatever order the set is walked in, the text is the same. */
  method UnionLeafText(a: string, b: string) returns (r: string)
    ensures r == UnionLeaf(a, b)
  {
    var names: set<string> := {};
    var pa, pb := Split(a), Split(b);
    for i := 0 to |pa|
      invariant names == Elements(pa[..i])
    {
      names := names + {pa[i]};
    }
    assert pa[..|pa|] == pa;
    for i := 0 to |pb|
      invariant names == Names(a) + Elements(pb[..i])
    {
      names := names + {pb[i]};
    }
    assert pb[..|pb|] == pb;
    ghost var all := names;
    var parts: seq<string> := [];
    while names != {}
      invariant Ascending(parts) && Elements(parts) == all - names && names <= all
      decreases names
    {
      var p :| p in names;
      assert p !in parts by { assert p in parts ==> p in Elements(parts); }
      InsertAscending(parts, p);
      parts := Insert(parts, p);
      names := names - {p};
    }
    AscendingUnique(parts, Sorted(all));
    r := Join(parts);
  }

  // ----- mergeSkeleton -----

  /** mergeSkeleton on two present skeletons. */
  function Merge(a: Skeleton, b: Skeleton): Skeleton {
    match (a, b)
    case (Object(f), Object(g)) =>
      Object(map k | k in f.Keys + g.Keys ::
        if k in f && k in g then Merge(f[k], g[k]) else if k in f then f[k] else g[k])
    case (Array(x), Array(y)) => Array(Merge(x, y))
    case (Leaf(x), Leaf(y)) => Leaf(UnionLeaf(x, y))
    case _ => MIXED
  }

  /** mergeSkeleton with its nil cases. */
  function MergeSkeleton(a: Option<Skeleton>, b: Option<Skeleton>): Option<Skeleton> {
    if a.None? then b
    else if b.None? then a
    else Some(Merge(a.value, b.value))
  }

  lemma {:induction false} MergeCommutative(a: Skeleton, b: Skeleton)
    ensures Merge(a, b) == Merge(b, a)
  {
    match (a, b)
    case (Object(f), Object(g)) =>
      forall k | k in f && k in g
        ensures Merge(f[k], g[k]) == Merge(g[k], f[k])
      {
        MergeCommutative(f[k], g[k]);
      }
      assert Merge(a, b).fields == Merge(b, a).fields;
    case (Array(x), Array(y)) =>
      MergeCommutative(x, y);
    case (Leaf(x), Leaf(y)) =>
      assert Names(x) + Names(y) == Names(y) + Names(x);
    case _ =>
  }

  /** The two skeletons have the same kind of node at every path both have. */
  ghost predicate SameStructure(a: Skeleton, b: Skeleton) {
    match (a, b)
    case (Object(f), Object(g)) => forall k :: k in f && k in g ==> SameStructure(f[k], g[k])
    case (Array(x), Array(y)) => SameStructure(x, y)
    case (Leaf(x), Leaf(y)) => true
    case _ => false
  }

  lemma {:induction false} MergeAssociative(a: Skeleton, b: Skeleton, c: Skeleton)
    requires SameStructure(a, b) && SameStructure(b, c) && SameStructure(a, c)
    ensures Merge(Merge(a, b), c) == Merge(a, Merge(b, c))
  {
    match (a, b, c)
    case (Object(f), Object(g), Object(h)) =>
      var left, right := Merge(Merge(a, b), c), Merge(a, Merge(b, c));
      assert left.fields.Keys == right.fields.Keys == f.Keys + g.Keys + h.Keys;
      forall k | k in left.fields
        ensures left.fields[k] == right.fields[k]
      {
        if k in f && k in g && k in h {
          MergeAssociative(f[k], g[k], h[k]);
        }
      }
      assert left.fields == right.fields;
    case (Array(x), Array(y), Array(z)) =>
      MergeAssociative(x, y, z);
    case (Leaf(x), Leaf(y), Leaf(z)) =>
      NamesOfUnion(x, y);
      NamesOfUnion(y, z);
      assert (Names(x) + Names(y)) + Names(z) == Names(x) + (Names(y) + Names(z));
    case _ =>
  }

  /** Every leaf text is sorted and duplicate-free, as unionLeaf leaves it. */
  ghost predicate WellFormed(a: Skeleton) {
    match a
    case Object(f) => forall k :: k in f ==> WellFormed(f[k])
    case Array(x) => WellFormed(x)
    case Leaf(x) => x == Render(Names(x))
  }

  lemma {:induction false} MergeIdempotent(a: Skeleton)
    requires WellFormed(a)
    ensures Merge(a, a) == a
  {
    match a
    case Object(f) =>
      forall k | k in f
        ensures Merge(f[k], f[k]) == f[k]
      {
        MergeIdempotent(f[k]);
      }
      assert Merge(a, a).fields == f;
    case Array(x) =>
      MergeIdempotent(x);
    case Leaf(x) =>
      assert Names(x) + Names(x) == Names(x);
  }

  // ----- skeletonOf and jsonSkeleton -----

  /** skeletonOf: keys and structure survive, a scalar becomes its type name. */
  function SkeletonOf(v: Json): Skeleton {
    match v
    case JObject(f) => Object(map k | k in f :: SkeletonOf(f[k]))
    case JArray(items) =>
      if items == [] then Array(Leaf("empty")) else Array(SkeletonOfItems(items))
    case JString(_) => Leaf("string")
    case JNumber(_) => Leaf("number")
    case JBool(_) => Leaf("boolean")
    case JNull => Leaf("null")
  }

  /** The merged element skeleton of a non-empty array. */
  function SkeletonOfItems(items: seq<Json>): Skeleton
    requires items != []
  {
    var last := SkeletonOf(items[|items| - 1]);
    if |items| == 1 then last else Merge(SkeletonOfItems(items[..|items| - 1]), last)
  }

  /** The left fold jsonSkeleton computes over the skeletons of its documents. */
  function Fold(s: seq<Skeleton>): Skeleton
    requires s != []
  {
    var n := |s| - 1;
    if n == 0 then s[0] else Merge(Fold(s[..n]), s[n])
  }

  lemma FoldSnoc(s: seq<Skeleton>, x: Skeleton)
    requires s != []
    ensures Fold(s + [x]) == Merge(Fold(s), x)
  {
    assert (s + [x])[..|s|] == s;
  }

  /** The skeletons of the samples that parsed. */
  function Parsed(samples: seq<Option<Json>>): seq<Skeleton> {
    if samples == [] then []
    else
      var n := |samples| - 1;
      Parsed(samples[..n]) + (if samples[n].Some? then [SkeletonOf(samples[n].value)] else [])
  }

  lemma ParsedSnoc(samples: seq<Option<Json>>, i: nat)
    requires i < |samples|
    ensures Parsed(samples[..i + 1]) ==
            if samples[i].Some? then Parsed(samples[..i]) + [SkeletonOf(samples[i].value)] else Parsed(samples[..i])
  {
    assert samples[..i + 1][..i] == samples[..i];
  }

  /** jsonSkeleton: samples that do not parse are skipped. */
  method JsonSkeleton(samples: seq<Option<Json>>) returns (merged: Option<Skeleton>)
    ensures merged == if Parsed(samples) == [] then None else Some(Fold(Parsed(samples)))
  {
    merged := None;
    for i := 0 to |samples|
      invariant merged == if Parsed(samples[..i]) == [] then None else Some(Fold(Parsed(samples[..i])))
    {
      ParsedSnoc(samples, i);
      if samples[i].Some? {
        if merged.Some? {
          FoldSnoc(Parsed(samples[..i]), SkeletonOf(samples[i].value));
        }
        merged := MergeSkeleton(merged, Some(SkeletonOf(samples[i].value)));
      }
    }
    assert samples[..|samples|] == samples;
  }

  // ----- every produced skeleton is well formed -----

  lemma SingleName(x: string)
    requires '|' !in x
    ensures Names(x) == {x} && Render({x}) == x
  {
    SplitPrefix(x, "");
    assert x + "" == x;
    AscendingUnique(Sorted({x}), [x]);
  }

  lemma {:induction false} MergeWellFormed(a: Skeleton, b: Skeleton)
    requires WellFormed(a) && WellFormed(b)
    ensures WellFormed(Merge(a, b))
  {
    match (a, b)
    case (Object(f), Object(g)) =>
      forall k | k in f && k in g
        ensures WellFormed(Merge(f[k], g[k]))
      {
        MergeWellFormed(f[k], g[k]);
      }
    case (Array(x), Array(y)) =>
      MergeWellFormed(x, y);
    case (Leaf(x), Leaf(y)) =>
      NamesOfUnion(x, y);
    case _ =>
      SingleName("mixed");
  }

  lemma {:induction false} SkeletonWellFormed(v: Json)
    ensures WellFormed(SkeletonOf(v))
    decreases v, 1
  {
    match v
    case JObject(f) =>
      forall k | k in f
        ensures WellFormed(SkeletonOf(f[k]))
      {
        SkeletonWellFormed(f[k]);
      }
    case JArray(items) =>
      if items == [] {
        SingleName("empty");
      } else {
        ItemsWellFormed(items);
      }
    case JString(_) => SingleName("string");
    case JNumber(_) => SingleName("number");
    case JBool(_) => SingleName("boolean");
    case JNull => SingleName("null");
  }

  lemma {:induction false} ItemsWellFormed(items: seq<Json>)
    requires items != []
    ensures WellFormed(SkeletonOfItems(items))
    decreases items, 0
  {
    var n := |items| - 1;
    SkeletonWellFormed(items[n]);
    if n > 0 {
      ItemsWellFormed(items[..n]);
      MergeWellFormed(SkeletonOfItems(items[..n]), SkeletonOf(items[n]));
    }
  }

  lemma {:induction false} FoldWellFormed(s: seq<Skeleton>)
    requires s != [] && forall x :: x in s ==> WellFormed(x)
    ensures WellFormed(Fold(s))
  {
    var n := |s| - 1;
    assert s[n] in s;
    if n > 0 {
      FoldWellFormed(s[..n]);
      MergeWellFormed(Fold(s[..n]), s[n]);
    }
  }

  /** Merging the merged shape with itself changes nothing. */
  lemma RepeatedSampleAbsorbed(samples: seq<Option<Json>>)
    requires Parsed(samples) != []
    ensures Merge(Fold(Parsed(samples)), Fold(Parsed(samples))) == Fold(Parsed(samples))
  {
    ParsedWellFormed(samples);
    FoldWellFormed(Parsed(samples));
    MergeIdempotent(Fold(Parsed(samples)));
  }

  lemma {:induction false} ParsedWellFormed(samples: seq<Option<Json>>)
    ensures forall x :: x in Parsed(samples) ==> WellFormed(x)
  {
    if samples != [] {
      var n := |samples| - 1;
      ParsedWellFormed(samples[..n]);
      if samples[n].Some? {
        SkeletonWellFormed(samples[n].value);
      }
    }
  }
}
