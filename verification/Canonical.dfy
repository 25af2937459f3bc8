/** internal/fixture/canonical.go on values: the canonical form of a YAML node tree. */
module Canonicals {
  import opened Order
  import opened Wrappers

  datatype Kind = Mapping | Sequence | Scalar | Alias

  /** A yaml.Node. A mapping alternates keys and values in content; an alias points at its target. */
  datatype Tree = Node(kind: Kind, tag: string, value: string, anchor: string, style: int,
                       content: seq<Tree>, target: Option<Tree>)

  datatype Pair = Pair(k: Tree, v: Tree)

  /** formatFloat6 of the parsed text, or nothing when the text is no float. */
  type FloatText = string -> Option<string>

  /** Six significant figures, read back and rendered again, are the same six figures. */
  ghost predicate Settled(float: FloatText) {
    forall x: string :: float(x).Some? ==> float(float(x).value) == Some(float(x).value)
  }

  function Strip(t: Tree): Tree {
    t.(anchor := "")
  }

  // ----- sortMapping -----

  function PairsOf(content: seq<Tree>): (ps: seq<Pair>)
    ensures |ps| == |content| / 2
    ensures forall i :: 0 <= i < |ps| ==> ps[i] == Pair(content[2 * i], content[2 * i + 1])
  {
    seq(|content| / 2, i requires 0 <= i < |content| / 2 => Pair(content[2 * i], content[2 * i + 1]))
  }

  function Flatten(ps: seq<Pair>): (content: seq<Tree>)
    ensures |content| == 2 * |ps|
  {
    if ps == [] then []
    else
      var n := |ps| - 1;
      Flatten(ps[..n]) + [ps[n].k, ps[n].v]
  }

  lemma {:induction false} FlattenAt(ps: seq<Pair>, i: nat)
    requires i < |ps|
    ensures Flatten(ps)[2 * i] == ps[i].k && Flatten(ps)[2 * i + 1] == ps[i].v
  {
    var n := |ps| - 1;
    if i < n {
      FlattenAt(ps[..n], i);
    }
  }

  lemma PairsOfFlatten(ps: seq<Pair>)
    ensures PairsOf(Flatten(ps)) == ps
  {
    forall i | 0 <= i < |ps|
      ensures PairsOf(Flatten(ps))[i] == ps[i]
    {
      FlattenAt(ps, i);
    }
  }

  function InsertPair(p: Pair, s: seq<Pair>): seq<Pair> {
    if s == [] then [p]
    else if Less(s[0].k.value, p.k.value) then [s[0]] + InsertPair(p, s[1..])
    else [p] + s
  }

  /** sort.SliceStable by key text. */
  function StableSort(ps: seq<Pair>): seq<Pair> {
    if ps == [] then [] else InsertPair(ps[0], StableSort(ps[1..]))
  }

  function KeyTexts(ps: seq<Pair>): (ks: seq<string>)
    ensures |ks| == |ps| && forall i :: 0 <= i < |ps| ==> ks[i] == ps[i].k.value
  {
    seq(|ps|, i requires 0 <= i < |ps| => ps[i].k.value)
  }

  ghost predicate DistinctKeys(ps: seq<Pair>) {
    forall i, j :: 0 <= i < j < |ps| ==> ps[i].k.value != ps[j].k.value
  }

  lemma {:induction false} InsertPairMembers(p: Pair, s: seq<Pair>)
    ensures multiset(InsertPair(p, s)) == multiset(s) + multiset{p}
  {
    if s != [] && Less(s[0].k.value, p.k.value) {
      InsertPairMembers(p, s[1..]);
      assert s == [s[0]] + s[1..];
    }
  }

  lemma {:induction false} StableSortMembers(ps: seq<Pair>)
    ensures multiset(StableSort(ps)) == multiset(ps)
    ensures |StableSort(ps)| == |ps| && forall p :: p in StableSort(ps) <==> p in ps
  {
    if ps != [] {
      StableSortMembers(ps[1..]);
      InsertPairMembers(ps[0], StableSort(ps[1..]));
      assert ps == [ps[0]] + ps[1..];
    }
    assert |multiset(StableSort(ps))| == |StableSort(ps)|;
    assert forall p :: p in StableSort(ps) <==> p in multiset(StableSort(ps));
  }

  lemma {:induction false} InsertPairKeys(p: Pair, s: seq<Pair>)
    requires p.k.value !in KeyTexts(s)
    ensures KeyTexts(InsertPair(p, s)) == Insert(KeyTexts(s), p.k.value)
  {
    if s == [] {
      assert KeyTexts([p]) == [p.k.value];
    } else {
      var keys := KeyTexts(s);
      assert keys[0] == s[0].k.value && KeyTexts(s[1..]) == keys[1..];
      LessTotal(keys[0], p.k.value);
      if Less(keys[0], p.k.value) {
        InsertPairKeys(p, s[1..]);
        assert KeyTexts([s[0]] + InsertPair(p, s[1..])) == [keys[0]] + KeyTexts(InsertPair(p, s[1..]));
      } else {
        assert KeyTexts([p] + s) == [p.k.value] + keys;
      }
    }
  }

  /** Sorting pairs with distinct keys lists the keys in strictly ascending order. */
  lemma {:induction false} StableSortAscending(ps: seq<Pair>)
    requires DistinctKeys(ps)
    ensures Ascending(KeyTexts(StableSort(ps)))
    ensures Elements(KeyTexts(StableSort(ps))) == Elements(KeyTexts(ps))
  {
    if ps == [] {
      assert KeyTexts(StableSort(ps)) == KeyTexts(ps);
    } else {
      var rest, x := ps[1..], ps[0].k.value;
      StableSortAscending(rest);
      assert KeyTexts(ps) == [x] + KeyTexts(rest);
      assert x !in KeyTexts(StableSort(rest)) by {
        assert x in KeyTexts(StableSort(rest)) ==> x in Elements(KeyTexts(rest));
      }
      InsertPairKeys(ps[0], StableSort(rest));
      InsertAscending(KeyTexts(StableSort(rest)), x);
      assert Elements(KeyTexts(ps)) == Elements(KeyTexts(rest)) + {x};
    }
  }

  // ----- canonicalizeNode -----

  /** The pairs of a mapping with their keys stripped and their values canonicalized. */
  function CanonPairs(t: Tree, float: FloatText): (ps: seq<Pair>)
    ensures |ps| == |t.content| / 2
    ensures forall i :: 0 <= i < |ps| ==>
              ps[i] == Pair(Strip(PairsOf(t.content)[i].k), Canon(PairsOf(t.content)[i].v, float))
    decreases t, 0
  {
    seq(|t.content| / 2, i requires 0 <= i < |t.content| / 2 =>
      Pair(Strip(PairsOf(t.content)[i].k), Canon(PairsOf(t.content)[i].v, float)))
  }

  function Canon(t: Tree, float: FloatText): Tree
    decreases t, 1
  {
    match t.kind
    case Mapping => Strip(t).(content := Flatten(StableSort(CanonPairs(t, float))))
    case Sequence =>
      Strip(t).(content := seq(|t.content|, i requires 0 <= i < |t.content| => Canon(t.content[i], float)))
    case Scalar =>
      if t.tag == "!!float" && float(t.value).Some? then Strip(t).(value := float(t.value).value, style := 0)
      else Strip(t)
    case Alias => if t.target.Some? then Canon(t.target.value, float) else Strip(t)
  }

  /** A decoded document without aliases: scalar, distinct mapping keys, and children
      only where the kind has them. */
  ghost predicate Plain(t: Tree) {
    && t.kind != Alias && t.target.None?
    && (t.kind == Scalar ==> t.content == [])
    && (t.kind == Sequence ==> forall i :: 0 <= i < |t.content| ==> Plain(t.content[i]))
    && (t.kind == Mapping ==>
          && |t.content| % 2 == 0
          && DistinctKeys(PairsOf(t.content))
          && (forall i :: 0 <= i < |t.content| / 2 ==>
                PlainKey(PairsOf(t.content)[i].k) && Plain(PairsOf(t.content)[i].v)))
  }

  ghost predicate PlainKey(k: Tree) {
    k.kind == Scalar && k.content == [] && k.target.None?
  }

  // ----- what a document means -----

  datatype Entry = Entry(key: Tree, val: Doc)

  /** A document with mappings as unordered maps, anchors gone and floats rendered. */
  datatype Doc = Doc(kind: Kind, tag: string, value: string, style: int, items: seq<Doc>, fields: map<string, Entry>)

  ghost function Meaning(t: Tree, float: FloatText): Doc
    requires Plain(t)
    decreases t, 2
  {
    match t.kind
    case Mapping => Doc(Mapping, t.tag, t.value, t.style, [], Fields(t, float))
    case Sequence =>
      Doc(Sequence, t.tag, t.value, t.style,
          seq(|t.content|, i requires 0 <= i < |t.content| => Meaning(t.content[i], float)), map[])
    case Scalar =>
      if t.tag == "!!float" && float(t.value).Some? then Doc(Scalar, t.tag, float(t.value).value, 0, [], map[])
      else Doc(Scalar, t.tag, t.value, t.style, [], map[])
  }

  ghost function EntryAt(t: Tree, i: nat, float: FloatText): Entry
    requires Plain(t) && t.kind == Mapping && i < |t.content| / 2
    decreases t, 0
  {
    Entry(Strip(PairsOf(t.content)[i].k), Meaning(PairsOf(t.content)[i].v, float))
  }

  ghost function Fields(t: Tree, float: FloatText): map<string, Entry>
    requires Plain(t) && t.kind == Mapping
    decreases t, 1
  {
    map k | k in KeyTexts(PairsOf(t.content)) :: EntryAt(t, KeyIndex(t, k), float)
  }

  /** The position of the pair whose key is k. */
  ghost function KeyIndex(t: Tree, k: string): (i: nat)
    requires k in KeyTexts(PairsOf(t.content))
    ensures i < |t.content| / 2 && PairsOf(t.content)[i].k.value == k
  {
    var i :| 0 <= i < |t.content| / 2 && KeyTexts(PairsOf(t.content))[i] == k;
    i
  }

  lemma FieldsAt(t: Tree, i: nat, float: FloatText)
    requires Plain(t) && t.kind == Mapping && i < |t.content| / 2
    ensures PairsOf(t.content)[i].k.value in Fields(t, float)
    ensures Fields(t, float)[PairsOf(t.content)[i].k.value] == EntryAt(t, i, float)
  {
    var ps := PairsOf(t.content);
    assert KeyTexts(ps)[i] == ps[i].k.value;
    var j := KeyIndex(t, PairsOf(t.content)[i].k.value);
    assert ps[j].k.value == ps[i].k.value;
  }

  lemma FieldsKeys(t: Tree, float: FloatText)
    requires Plain(t) && t.kind == Mapping
    ensures Fields(t, float).Keys == Elements(KeyTexts(PairsOf(t.content)))
  {
  }

  // ----- equal meaning, equal canonical form -----

  lemma CanonPairsKeys(t: Tree, float: FloatText)
    requires Plain(t) && t.kind == Mapping
    ensures KeyTexts(CanonPairs(t, float)) == KeyTexts(PairsOf(t.content))
    ensures DistinctKeys(CanonPairs(t, float))
  {
    var ps, qs := CanonPairs(t, float), PairsOf(t.content);
    forall i | 0 <= i < |ps|
      ensures ps[i].k.value == qs[i].k.value
    {
    }
  }

  /** A pair of the sorted mapping is the canonicalized pair at some position. */
  lemma SortedPairAt(t: Tree, float: FloatText, i: nat) returns (j: nat)
    requires i < |StableSort(CanonPairs(t, float))|
    ensures j < |t.content| / 2
    ensures StableSort(CanonPairs(t, float))[i]
            == Pair(Strip(PairsOf(t.content)[j].k), Canon(PairsOf(t.content)[j].v, float))
  {
    var ps := CanonPairs(t, float);
    StableSortMembers(ps);
    assert StableSort(ps)[i] in ps;
    j :| 0 <= j < |ps| && ps[j] == StableSort(ps)[i];
  }

  lemma {:induction false} SameMeaningSameForm(t: Tree, u: Tree, float: FloatText)
    requires Plain(t) && Plain(u)
    requires Meaning(t, float) == Meaning(u, float)
    ensures Canon(t, float) == Canon(u, float)
    decreases t, 2
  {
    match t.kind
    case Mapping =>
      SameFieldsSamePairs(t, u, float);
    case Sequence =>
      SameItemsSameContent(t, u, float);
    case Scalar =>
  }

  lemma {:induction false} SameItemsSameContent(t: Tree, u: Tree, float: FloatText)
    requires Plain(t) && Plain(u) && t.kind == u.kind == Sequence
    requires Meaning(t, float).items == Meaning(u, float).items
    ensures Canon(t, float).content == Canon(u, float).content
    decreases t, 1
  {
    var ts, us := Meaning(t, float).items, Meaning(u, float).items;
    forall i | 0 <= i < |t.content|
      ensures Canon(t.content[i], float) == Canon(u.content[i], float)
    {
      assert ts[i] == us[i];
      SameMeaningSameForm(t.content[i], u.content[i], float);
    }
  }

  lemma {:induction false} SameFieldsSamePairs(t: Tree, u: Tree, float: FloatText)
    requires Plain(t) && Plain(u) && t.kind == u.kind == Mapping
    requires Fields(t, float) == Fields(u, float)
    ensures StableSort(CanonPairs(t, float)) == StableSort(CanonPairs(u, float))
    decreases t, 1
  {
    var s, r := StableSort(CanonPairs(t, float)), StableSort(CanonPairs(u, float));
    SortedKeys(t, float);
    SortedKeys(u, float);
    AscendingUnique(KeyTexts(s), KeyTexts(r));
    forall i | 0 <= i < |s|
      ensures s[i] == r[i]
    {
      var a := SortedPairAt(t, float, i);
      var b := SortedPairAt(u, float, i);
      assert KeyTexts(s)[i] == KeyTexts(r)[i];
      SameFieldSamePair(t, a, u, b, float);
    }
    assert s == r;
  }

  lemma SortedKeys(t: Tree, float: FloatText)
    requires Plain(t) && t.kind == Mapping
    ensures Ascending(KeyTexts(StableSort(CanonPairs(t, float))))
    ensures Elements(KeyTexts(StableSort(CanonPairs(t, float)))) == Fields(t, float).Keys
  {
    FieldsKeys(t, float);
    CanonPairsKeys(t, float);
    StableSortAscending(CanonPairs(t, float));
  }

  lemma {:induction false} SameFieldSamePair(t: Tree, a: nat, u: Tree, b: nat, float: FloatText)
    requires Plain(t) && Plain(u) && t.kind == u.kind == Mapping
    requires Fields(t, float) == Fields(u, float)
    requires a < |t.content| / 2 && b < |u.content| / 2
    requires PairsOf(t.content)[a].k.value == PairsOf(u.content)[b].k.value
    ensures CanonPairs(t, float)[a] == CanonPairs(u, float)[b]
    decreases t, 0
  {
    FieldsAt(t, a, float);
    FieldsAt(u, b, float);
    assert EntryAt(t, a, float) == EntryAt(u, b, float);
    SameMeaningSameForm(PairsOf(t.content)[a].v, PairsOf(u.content)[b].v, float);
  }

  // ----- the canonical form keeps the meaning -----

  lemma {:induction false} CanonPlain(t: Tree, float: FloatText)
    requires Plain(t)
    ensures Plain(Canon(t, float))
    decreases t
  {
    match t.kind
    case Mapping =>
      var ps := CanonPairs(t, float);
      var s := StableSort(ps);
      CanonPairsKeys(t, float);
      StableSortAscending(ps);
      PairsOfFlatten(s);
      assert DistinctKeys(s) by {
        forall i, j | 0 <= i < j < |s|
          ensures s[i].k.value != s[j].k.value
        {
          LessTotal(KeyTexts(s)[i], KeyTexts(s)[j]);
        }
      }
      var c := Canon(t, float).content;
      forall i | 0 <= i < |c| / 2
        ensures PlainKey(c[2 * i]) && Plain(c[2 * i + 1])
      {
        var j := SortedPairAt(t, float, i);
        assert c[2 * i] == s[i].k && c[2 * i + 1] == s[i].v;
        CanonPlain(PairsOf(t.content)[j].v, float);
      }
    case Sequence =>
      forall i | 0 <= i < |t.content|
        ensures Plain(Canon(t.content[i], float))
      {
        CanonPlain(t.content[i], float);
      }
    case Scalar =>
  }

  lemma {:induction false} CanonMeaning(t: Tree, float: FloatText)
    requires Plain(t) && Settled(float)
    ensures Plain(Canon(t, float)) && Meaning(Canon(t, float), float) == Meaning(t, float)
    decreases t, 3
  {
    CanonPlain(t, float);
    match t.kind
    case Mapping =>
      CanonFields(t, float);
    case Sequence =>
      var c := Canon(t, float);
      forall i | 0 <= i < |t.content|
        ensures Meaning(c.content[i], float) == Meaning(t.content[i], float)
      {
        CanonMeaning(t.content[i], float);
      }
      assert Meaning(c, float).items == Meaning(t, float).items;
    case Scalar =>
  }

  lemma CanonKeys(t: Tree, float: FloatText)
    requires Plain(t) && t.kind == Mapping && Plain(Canon(t, float))
    ensures var c := Canon(t, float);
            && c.kind == Mapping && PairsOf(c.content) == StableSort(CanonPairs(t, float))
            && Fields(c, float).Keys == Fields(t, float).Keys
  {
    PairsOfFlatten(StableSort(CanonPairs(t, float)));
    SortedKeys(t, float);
    FieldsKeys(Canon(t, float), float);
  }

  lemma {:induction false} CanonFields(t: Tree, float: FloatText)
    requires Plain(t) && Settled(float) && t.kind == Mapping && Plain(Canon(t, float))
    ensures Fields(Canon(t, float), float) == Fields(t, float)
    decreases t, 2
  {
    CanonKeys(t, float);
    CanonFieldsOf(t, Canon(t, float), float);
  }

  lemma {:induction false} CanonFieldsOf(t: Tree, c: Tree, float: FloatText)
    requires Plain(t) && Settled(float) && t.kind == Mapping && Plain(c) && c.kind == Mapping
    requires PairsOf(c.content) == StableSort(CanonPairs(t, float)) && Fields(c, float).Keys == Fields(t, float).Keys
    ensures Fields(c, float) == Fields(t, float)
    decreases t, 1
  {
    forall k | k in Fields(c, float)
      ensures Fields(c, float)[k] == Fields(t, float)[k]
    {
      CanonField(t, c, k, float);
    }
    SameMap(Fields(c, float), Fields(t, float));
  }

  lemma SameMap<K, V>(a: map<K, V>, b: map<K, V>)
    requires a.Keys == b.Keys && forall k :: k in a ==> a[k] == b[k]
    ensures a == b
  {
  }

  lemma {:induction false} CanonField(t: Tree, c: Tree, k: string, float: FloatText)
    requires Plain(t) && Settled(float) && t.kind == Mapping && Plain(c) && c.kind == Mapping
    requires PairsOf(c.content) == StableSort(CanonPairs(t, float))
    requires k in Fields(c, float)
    ensures k in Fields(t, float) && Fields(c, float)[k] == Fields(t, float)[k]
    decreases t, 0
  {
    var i := KeyIndex(c, k);
    var j := SortedPairAt(t, float, i);
    FieldsAt(c, i, float);
    FieldsAt(t, j, float);
    CanonMeaning(PairsOf(t.content)[j].v, float);
  }

  /** Two documents have the same canonical form exactly when they mean the same,
      whatever the order of their mapping keys. */
  lemma CanonicalIffSameMeaning(t: Tree, u: Tree, float: FloatText)
    requires Plain(t) && Plain(u) && Settled(float)
    ensures Canon(t, float) == Canon(u, float) <==> Meaning(t, float) == Meaning(u, float)
  {
    CanonMeaning(t, float);
    CanonMeaning(u, float);
    if Meaning(t, float) == Meaning(u, float) {
      SameMeaningSameForm(t, u, float);
    }
  }

  lemma CanonIdempotent(t: Tree, float: FloatText)
    requires Plain(t) && Settled(float)
    ensures Canon(Canon(t, float), float) == Canon(t, float)
  {
    CanonMeaning(t, float);
    SameMeaningSameForm(Canon(t, float), t, float);
  }

  // ----- aliases and anchors -----

  /** The document with every alias in value position written out. */
  function Expand(t: Tree): Tree
    decreases t, 1
  {
    match t.kind
    case Mapping => t.(content := Flatten(ExpandPairs(t)))
    case Sequence => t.(content := seq(|t.content|, i requires 0 <= i < |t.content| => Expand(t.content[i])))
    case Scalar => t
    case Alias => if t.target.Some? then Expand(t.target.value) else t
  }

  function ExpandPairs(t: Tree): (ps: seq<Pair>)
    ensures |ps| == |t.content| / 2
    ensures forall i :: 0 <= i < |ps| ==> ps[i] == Pair(PairsOf(t.content)[i].k, Expand(PairsOf(t.content)[i].v))
    decreases t, 0
  {
    seq(|t.content| / 2, i requires 0 <= i < |t.content| / 2 =>
      Pair(PairsOf(t.content)[i].k, Expand(PairsOf(t.content)[i].v)))
  }

  /** Aliases canonicalize as what they point at. */
  lemma {:induction false} CanonExpands(t: Tree, float: FloatText)
    ensures Canon(Expand(t), float) == Canon(t, float)
  {
    match t.kind
    case Mapping =>
      PairsOfFlatten(ExpandPairs(t));
      forall i | 0 <= i < |t.content| / 2
        ensures CanonPairs(Expand(t), float)[i] == CanonPairs(t, float)[i]
      {
        CanonExpands(PairsOf(t.content)[i].v, float);
      }
      assert CanonPairs(Expand(t), float) == CanonPairs(t, float);
    case Sequence =>
      forall i | 0 <= i < |t.content|
        ensures Canon(Expand(t.content[i]), float) == Canon(t.content[i], float)
      {
        CanonExpands(t.content[i], float);
      }
      assert Canon(Expand(t), float).content == Canon(t, float).content;
    case Scalar =>
    case Alias =>
      if t.target.Some? {
        CanonExpands(t.target.value, float);
      }
  }

  /** No anchor and no alias anywhere in the tree. */
  ghost predicate Bare(t: Tree) {
    && t.anchor == "" && t.kind != Alias
    && forall i :: 0 <= i < |t.content| ==> Bare(t.content[i])
  }

  lemma {:induction false} CanonBare(t: Tree, float: FloatText)
    requires Plain(t)
    ensures Bare(Canon(t, float))
    decreases t
  {
    match t.kind
    case Mapping =>
      var s := StableSort(CanonPairs(t, float));
      forall i | 0 <= i < |s|
        ensures Bare(s[i].k) && Bare(s[i].v)
      {
        var j := SortedPairAt(t, float, i);
        CanonBare(PairsOf(t.content)[j].v, float);
      }
      FlattenBare(s);
    case Sequence =>
      forall i | 0 <= i < |t.content|
        ensures Bare(Canon(t.content[i], float))
      {
        CanonBare(t.content[i], float);
      }
    case Scalar =>
  }

  lemma {:induction false} FlattenBare(ps: seq<Pair>)
    requires forall i :: 0 <= i < |ps| ==> Bare(ps[i].k) && Bare(ps[i].v)
    ensures forall i :: 0 <= i < |Flatten(ps)| ==> Bare(Flatten(ps)[i])
  {
    if ps != [] {
      FlattenBare(ps[..|ps| - 1]);
    }
  }

  // ----- dropExcludedMetaFields -----

  function WithoutKey(ps: seq<Pair>, key: string): seq<Pair> {
    if ps == [] then []
    else (if ps[0].k.value == key then [] else [ps[0]]) + WithoutKey(ps[1..], key)
  }

  /** removeKey. */
  function RemoveKey(n: Tree, key: string): Tree {
    if n.kind != Mapping then n else n.(content := Flatten(WithoutKey(PairsOf(n.content), key)))
  }

  /** Where mappingValue finds the key: the first pair that has it. */
  function FindKey(ps: seq<Pair>, key: string): (r: Option<nat>)
    ensures r.Some? ==> r.value < |ps| && ps[r.value].k.value == key
    ensures r.Some? ==> forall i :: 0 <= i < r.value ==> ps[i].k.value != key
    ensures r.None? ==> forall i :: 0 <= i < |ps| ==> ps[i].k.value != key
  {
    if ps == [] then None
    else if ps[0].k.value == key then Some(0)
    else
      var rest := FindKey(ps[1..], key);
      if rest.Some? then Some(rest.value + 1) else None
  }

  function DropExcludedMetaFields(root: Tree): Tree {
    if root.kind != Mapping then root
    else
      var at := FindKey(PairsOf(root.content), "meta");
      if at.None? then root
      else
        var meta := root.content[2 * at.value + 1];
        root.(content := root.content[2 * at.value + 1 := RemoveKey(RemoveKey(meta, "digest"), "generated_at")])
  }

  lemma {:induction false} WithoutKeyAppend(a: seq<Pair>, b: seq<Pair>, key: string)
    ensures WithoutKey(a + b, key) == WithoutKey(a, key) + WithoutKey(b, key)
  {
    if a == [] {
      assert a + b == b;
    } else {
      assert (a + b)[1..] == a[1..] + b;
      WithoutKeyAppend(a[1..], b, key);
    }
  }

  // ----- the digest -----

  /** A fixture's node tree as the encoder emits it: the two excluded fields among the
      other meta fields, the digest only once it is set. */
  datatype Shape = Shape(version: Pair, metaKey: Tree, meta: Tree, generatedAtKey: Tree, digestKey: Tree, text: Tree,
                         metaHead: seq<Pair>, metaTail: seq<Pair>, rest: seq<Pair>)

  function MetaPairs(b: Shape, generatedAt: string, digest: string): seq<Pair> {
    b.metaHead + [Pair(b.generatedAtKey, b.text.(value := generatedAt))] + b.metaTail
    + (if digest == "" then [] else [Pair(b.digestKey, b.text.(value := digest))])
  }

  function MetaNode(b: Shape, generatedAt: string, digest: string): Tree {
    b.meta.(content := Flatten(MetaPairs(b, generatedAt, digest)))
  }

  /** The root mapping: the format version, then meta, then everything else. */
  function RootWith(b: Shape, meta: Tree): Tree {
    b.meta.(content := [b.version.k, b.version.v, b.metaKey, meta] + Flatten(b.rest))
  }

  function Root(b: Shape, generatedAt: string, digest: string): Tree {
    RootWith(b, MetaNode(b, generatedAt, digest))
  }

  /** The keys a marshalled fixture uses for the fields that matter here. */
  ghost predicate FixtureShape(b: Shape) {
    && b.meta.kind == Mapping && b.version.k.value != "meta" && b.metaKey.value == "meta"
    && b.generatedAtKey.value == "generated_at" && b.digestKey.value == "digest"
  }

  lemma MetaWithoutExcluded(b: Shape, generatedAt: string, digest: string)
    requires FixtureShape(b)
    ensures WithoutKey(WithoutKey(MetaPairs(b, generatedAt, digest), "digest"), "generated_at")
            == WithoutKey(WithoutKey(b.metaHead + b.metaTail, "digest"), "generated_at")
  {
    var at := [Pair(b.generatedAtKey, b.text.(value := generatedAt))];
    var d := if digest == "" then [] else [Pair(b.digestKey, b.text.(value := digest))];
    assert MetaPairs(b, generatedAt, digest) == (b.metaHead + at) + (b.metaTail + d);
    WithoutKeyAppend(b.metaHead + at, b.metaTail + d, "digest");
    WithoutKeyAppend(b.metaHead, at, "digest");
    WithoutKeyAppend(b.metaTail, d, "digest");
    WithoutKeyAppend(b.metaHead, b.metaTail, "digest");
    var head, tail := WithoutKey(b.metaHead, "digest"), WithoutKey(b.metaTail, "digest");
    assert WithoutKey(d, "digest") == [];
    assert WithoutKey(at, "digest") == at && WithoutKey(at, "generated_at") == [];
    assert (head + at) + (tail + []) == (head + at) + tail;
    WithoutKeyAppend(head + at, tail, "generated_at");
    WithoutKeyAppend(head, at, "generated_at");
    WithoutKeyAppend(head, tail, "generated_at");
  }

  /** Neither the digest nor the timestamp reaches what is hashed. */
  lemma DropIgnoresExcluded(b: Shape, g: string, d: string, g': string, d': string)
    requires FixtureShape(b)
    ensures DropExcludedMetaFields(Root(b, g, d)) == DropExcludedMetaFields(Root(b, g', d'))
  {
    DropFromRoot(b, MetaNode(b, g, d));
    DropFromRoot(b, MetaNode(b, g', d'));
    ExcludedRemoved(b, g, d);
    ExcludedRemoved(b, g', d');
  }

  lemma DropFromRoot(b: Shape, meta: Tree)
    requires FixtureShape(b)
    ensures DropExcludedMetaFields(RootWith(b, meta))
            == RootWith(b, RemoveKey(RemoveKey(meta, "digest"), "generated_at"))
  {
    var content := RootWith(b, meta).content;
    var ps := PairsOf(content);
    assert ps[0] == b.version && ps[1] == Pair(b.metaKey, meta);
    var at := FindKey(ps, "meta");
    assert at == Some(1);
    var clean := RemoveKey(RemoveKey(meta, "digest"), "generated_at");
    assert content[3 := clean] == RootWith(b, clean).content;
  }

  lemma ExcludedRemoved(b: Shape, g: string, d: string)
    requires FixtureShape(b)
    ensures RemoveKey(RemoveKey(MetaNode(b, g, d), "digest"), "generated_at")
            == b.meta.(content := Flatten(WithoutKey(WithoutKey(b.metaHead + b.metaTail, "digest"), "generated_at")))
  {
    PairsOfFlatten(MetaPairs(b, g, d));
    PairsOfFlatten(WithoutKey(MetaPairs(b, g, d), "digest"));
    MetaWithoutExcluded(b, g, d);
  }

  /** Digest: hash is hexadecimal SHA-256 of the encoded bytes, both kept abstract. */
  function Digest(b: Shape, generatedAt: string, digest: string, float: FloatText, hash: Tree -> string): string {
    "sha256:" + hash(Canon(DropExcludedMetaFields(Root(b, generatedAt, digest)), float))
  }

  ghost predicate LacksKey(ps: seq<Pair>, key: string) {
    forall i :: 0 <= i < |ps| ==> ps[i].k.value != key
  }

  lemma {:induction false} NothingRemoved(ps: seq<Pair>, key: string)
    requires LacksKey(ps, key)
    ensures WithoutKey(ps, key) == ps
  {
    if ps != [] {
      assert forall i :: 0 <= i < |ps[1..]| ==> ps[1..][i] == ps[i + 1];
      NothingRemoved(ps[1..], key);
    }
  }

  /** Nothing but the two fields is withheld from the hash: all else of meta, and all beside it, is there. */
  lemma DropKeepsOthers(b: Shape, g: string, d: string)
    requires FixtureShape(b) && LacksKey(b.metaHead + b.metaTail, "digest")
    requires LacksKey(b.metaHead + b.metaTail, "generated_at")
    ensures DropExcludedMetaFields(Root(b, g, d)) == RootWith(b, b.meta.(content := Flatten(b.metaHead + b.metaTail)))
  {
    DropFromRoot(b, MetaNode(b, g, d));
    ExcludedRemoved(b, g, d);
    NothingRemoved(b.metaHead + b.metaTail, "digest");
    NothingRemoved(b.metaHead + b.metaTail, "generated_at");
  }

  lemma PrefixApart(x: string, y: string)
    ensures "sha256:" + x == "sha256:" + y <==> x == y
  {
    assert ("sha256:" + x)[7..] == x && ("sha256:" + y)[7..] == y;
  }

  /** Two fixtures have one digest exactly when they mean the same apart from the two fields, as
      long as the hash tells their canonical forms apart. */
  lemma DigestIffSameMeaning(b: Shape, g: string, d: string, b': Shape, g': string, d': string, float: FloatText,
                             hash: Tree -> string)
    requires var t, u := DropExcludedMetaFields(Root(b, g, d)), DropExcludedMetaFields(Root(b', g', d'));
             && Plain(t) && Plain(u) && Settled(float)
             && (hash(Canon(t, float)) == hash(Canon(u, float)) ==> Canon(t, float) == Canon(u, float))
    ensures var t, u := DropExcludedMetaFields(Root(b, g, d)), DropExcludedMetaFields(Root(b', g', d'));
            Digest(b, g, d, float, hash) == Digest(b', g', d', float, hash) <==> Meaning(t, float) == Meaning(u, float)
  {
    var t, u := DropExcludedMetaFields(Root(b, g, d)), DropExcludedMetaFields(Root(b', g', d'));
    CanonicalIffSameMeaning(t, u, float);
    PrefixApart(hash(Canon(t, float)), hash(Canon(u, float)));
  }

  /** A fixture whose digest is stored in place. */
  class Fixture {
    const shape: Shape
    var generatedAt: string
    var digest: string

    constructor (shape: Shape, generatedAt: string, digest: string)
      ensures this.shape == shape && this.generatedAt == generatedAt && this.digest == digest
    {
      this.shape, this.generatedAt, this.digest := shape, generatedAt, digest;
    }

    function CurrentDigest(float: FloatText, hash: Tree -> string): string
      reads this
    {
      Digest(shape, generatedAt, digest, float, hash)
    }

    /** SetDigest: stores the digest without changing it, so a second call stores the same. */
    method SetDigest(float: FloatText, hash: Tree -> string)
      requires FixtureShape(shape)
      modifies this`digest
      ensures digest == old(CurrentDigest(float, hash))
      ensures CurrentDigest(float, hash) == digest
    {
      var d := CurrentDigest(float, hash);
      DropIgnoresExcluded(shape, generatedAt, digest, generatedAt, d);
      digest := d;
    }
  }
}
