/** internal/fixture/canonical.go on the heap: the yaml.Node tree rewritten in place,
    proved against the value-level canonical form. */
module NodeTrees {
  import opened Order
  import opened Canonicals
  import opened Wrappers

  /** A key and its value, with the key's text as it stands when the pairs are sorted. */
  datatype NodePair = NodePair(text: string, k: Node, v: Node)

  function NodePairs(content: seq<Node>): (ps: seq<NodePair>)
    reads content
    ensures |ps| == |content| / 2
    ensures forall i :: 0 <= i < |ps| ==> ps[i] == NodePair(content[2 * i].value, content[2 * i], content[2 * i + 1])
  {
    seq(|content| / 2, i requires 0 <= i < |content| / 2 reads content =>
      NodePair(content[2 * i].value, content[2 * i], content[2 * i + 1]))
  }

  function FlattenNodes(ps: seq<NodePair>): (content: seq<Node>)
    ensures |content| == 2 * |ps|
  {
    if ps == [] then []
    else
      var n := |ps| - 1;
      FlattenNodes(ps[..n]) + [ps[n].k, ps[n].v]
  }

  lemma {:induction false} FlattenNodesAt(ps: seq<NodePair>, i: nat)
    requires i < |ps|
    ensures FlattenNodes(ps)[2 * i] == ps[i].k && FlattenNodes(ps)[2 * i + 1] == ps[i].v
  {
    var n := |ps| - 1;
    if i < n {
      FlattenNodesAt(ps[..n], i);
    }
  }

  function InsertNode(p: NodePair, s: seq<NodePair>): seq<NodePair> {
    if s == [] then [p]
    else if Less(s[0].text, p.text) then [s[0]] + InsertNode(p, s[1..])
    else [p] + s
  }

  /** sort.SliceStable on the pairs of nodes. */
  function SortNodes(ps: seq<NodePair>): seq<NodePair> {
    if ps == [] then [] else InsertNode(ps[0], SortNodes(ps[1..]))
  }

  lemma {:induction false} InsertNodeMembers(p: NodePair, s: seq<NodePair>)
    ensures multiset(InsertNode(p, s)) == multiset(s) + multiset{p}
  {
    if s != [] && Less(s[0].text, p.text) {
      InsertNodeMembers(p, s[1..]);
      assert s == [s[0]] + s[1..];
    }
  }

  lemma {:induction false} SortNodesMembers(ps: seq<NodePair>)
    ensures multiset(SortNodes(ps)) == multiset(ps)
  {
    if ps != [] {
      SortNodesMembers(ps[1..]);
      InsertNodeMembers(ps[0], SortNodes(ps[1..]));
      assert ps == [ps[0]] + ps[1..];
    }
  }

  /** The trees the pairs of nodes currently stand for. */
  ghost function TreePairs(ps: seq<NodePair>): (ts: seq<Pair>)
    reads set p | p in ps :: p.k, set p | p in ps :: p.v
    ensures |ts| == |ps|
  {
    if ps == [] then [] else [Pair(ps[0].k.tree, ps[0].v.tree)] + TreePairs(ps[1..])
  }

  lemma {:induction false} TreePairsAt(ps: seq<NodePair>, i: nat)
    requires i < |ps|
    ensures TreePairs(ps)[i] == Pair(ps[i].k.tree, ps[i].v.tree)
  {
    if i > 0 {
      TreePairsAt(ps[1..], i - 1);
    }
  }

  lemma {:induction false} InsertNodeTrees(p: NodePair, s: seq<NodePair>)
    requires p.text == p.k.tree.value && forall q :: q in s ==> q.text == q.k.tree.value
    ensures TreePairs(InsertNode(p, s)) == InsertPair(Pair(p.k.tree, p.v.tree), TreePairs(s))
  {
    if s != [] && Less(s[0].text, p.text) {
      InsertNodeTrees(p, s[1..]);
      var t := InsertNode(p, s[1..]);
      assert ([s[0]] + t)[1..] == t;
    } else {
      assert ([p] + s)[1..] == s;
    }
  }

  /** Sorting the nodes sorts the trees. */
  lemma {:induction false} SortNodesTrees(ps: seq<NodePair>)
    requires forall q :: q in ps ==> q.text == q.k.tree.value
    ensures TreePairs(SortNodes(ps)) == StableSort(TreePairs(ps))
  {
    if ps != [] {
      SortNodesTrees(ps[1..]);
      var rest := SortNodes(ps[1..]);
      SortNodesMembers(ps[1..]);
      forall q | q in rest
        ensures q.text == q.k.tree.value
      {
        assert q in multiset(rest);
        assert q in ps[1..];
      }
      InsertNodeTrees(ps[0], rest);
    }
  }

  // ----- sorting loses and repeats no node -----

  ghost predicate Apart(p: NodePair, q: NodePair) {
    p.k != q.k && p.k != q.v && p.v != q.k && p.v != q.v
  }

  ghost predicate PairsApart(ps: seq<NodePair>) {
    && (forall i :: 0 <= i < |ps| ==> ps[i].k != ps[i].v)
    && (forall i, j :: 0 <= i < j < |ps| ==> Apart(ps[i], ps[j]))
  }

  lemma {:induction false} InsertNodeApart(p: NodePair, s: seq<NodePair>)
    requires PairsApart(s) && p.k != p.v && forall q :: q in s ==> Apart(p, q)
    ensures PairsApart(InsertNode(p, s))
  {
    if s != [] && Less(s[0].text, p.text) {
      var rest := s[1..];
      InsertNodeApart(p, rest);
      InsertNodeMembers(p, rest);
      var t := InsertNode(p, rest);
      forall j | 0 <= j < |t|
        ensures Apart(s[0], t[j])
      {
        assert t[j] in multiset(t);
        HeadApart(p, s, t[j]);
      }
      HeadBefore(s[0], t);
    }
  }

  lemma HeadBefore(head: NodePair, t: seq<NodePair>)
    requires PairsApart(t) && head.k != head.v && forall j :: 0 <= j < |t| ==> Apart(head, t[j])
    ensures PairsApart([head] + t)
  {
  }

  lemma HeadApart(p: NodePair, s: seq<NodePair>, q: NodePair)
    requires s != [] && PairsApart(s) && (forall r :: r in s ==> Apart(p, r)) && (q == p || q in s[1..])
    ensures Apart(s[0], q)
  {
    assert s[0] in s;
    if q != p {
      var i :| 0 <= i < |s[1..]| && s[1..][i] == q;
      assert Apart(s[0], s[i + 1]);
    }
  }

  lemma {:induction false} SortNodesApart(ps: seq<NodePair>)
    requires PairsApart(ps)
    ensures PairsApart(SortNodes(ps))
  {
    if ps != [] {
      SortNodesApart(ps[1..]);
      SortNodesMembers(ps[1..]);
      forall q | q in SortNodes(ps[1..])
        ensures Apart(ps[0], q)
      {
        assert q in multiset(SortNodes(ps[1..]));
        assert q in ps[1..];
        var i :| 0 <= i < |ps[1..]| && ps[1..][i] == q;
        assert ps[i + 1] == q;
      }
      InsertNodeApart(ps[0], SortNodes(ps[1..]));
    }
  }

  lemma FlattenNodesDistinct(ps: seq<NodePair>, i: nat, j: nat)
    requires PairsApart(ps) && i < j < 2 * |ps|
    ensures FlattenNodes(ps)[i] != FlattenNodes(ps)[j]
  {
    var a, b := i / 2, j / 2;
    FlattenNodesAt(ps, a);
    FlattenNodesAt(ps, b);
    assert i == 2 * a || i == 2 * a + 1;
    assert j == 2 * b || j == 2 * b + 1;
    assert a < b ==> Apart(ps[a], ps[b]);
  }

  lemma FlattenTreesAt(ps: seq<NodePair>, a: nat)
    requires a < |ps|
    ensures FlattenNodes(ps)[2 * a].tree == Flatten(TreePairs(ps))[2 * a]
    ensures FlattenNodes(ps)[2 * a + 1].tree == Flatten(TreePairs(ps))[2 * a + 1]
  {
    FlattenNodesAt(ps, a);
    FlattenAt(TreePairs(ps), a);
    TreePairsAt(ps, a);
  }

  /** Distinct nodes with separate footprints. */
  ghost predicate Separate(ns: seq<Node>)
    reads ns
  {
    && Distinct(ns)
    && (forall m, n :: m in ns && n in ns && m != n ==> m.repr !! n.repr)
  }

  lemma {:induction false} FlattenNodesMembers(ps: seq<NodePair>, n: Node)
    ensures n in FlattenNodes(ps) <==> exists p :: p in ps && (n == p.k || n == p.v)
  {
    if ps != [] {
      var last := |ps| - 1;
      FlattenNodesMembers(ps[..last], n);
      assert ps == ps[..last] + [ps[last]];
    }
  }

  lemma SortedMembers(content: seq<Node>)
    ensures forall n :: n in FlattenNodes(SortNodes(NodePairs(content))) ==> n in content
  {
    var sorted := SortNodes(NodePairs(content));
    SortNodesMembers(NodePairs(content));
    forall n | n in FlattenNodes(sorted)
      ensures n in content
    {
      FlattenNodesMembers(sorted, n);
      var p :| p in sorted && (n == p.k || n == p.v);
      assert p in multiset(sorted);
      assert p in NodePairs(content);
    }
  }

  lemma SortedDistinct(content: seq<Node>)
    requires forall i, j :: 0 <= i < j < |content| ==> content[i] != content[j]
    ensures var c := FlattenNodes(SortNodes(NodePairs(content)));
            forall i, j :: 0 <= i < j < |c| ==> c[i] != c[j]
  {
    var ps := NodePairs(content);
    var sorted := SortNodes(ps);
    SortNodesApart(ps);
    forall i, j | 0 <= i < j < 2 * |sorted|
      ensures FlattenNodes(sorted)[i] != FlattenNodes(sorted)[j]
    {
      FlattenNodesDistinct(sorted, i, j);
    }
  }

  lemma SortedTrees(content: seq<Node>, trees: seq<Tree>)
    requires |content| == |trees| && forall i :: 0 <= i < |content| ==> trees[i] == content[i].tree
    requires forall n :: n in content ==> n.value == n.tree.value
    ensures var c, t := FlattenNodes(SortNodes(NodePairs(content))), Flatten(StableSort(PairsOf(trees)));
            |c| == |t| && forall i :: 0 <= i < |c| ==> c[i].tree == t[i]
  {
    var ps := NodePairs(content);
    var sorted := SortNodes(ps);
    forall i | 0 <= i < |ps|
      ensures TreePairs(ps)[i] == PairsOf(trees)[i]
    {
      TreePairsAt(ps, i);
    }
    assert TreePairs(ps) == PairsOf(trees);
    SortNodesTrees(ps);
    forall i | 0 <= i < 2 * |sorted|
      ensures FlattenNodes(sorted)[i].tree == Flatten(TreePairs(sorted))[i]
    {
      FlattenTreesAt(sorted, i / 2);
      assert i == 2 * (i / 2) || i == 2 * (i / 2) + 1;
    }
  }

  /** A yaml.Node. tree is the value it stands for; repr holds every node below it. */
  class Node {
    var kind: Kind
    var tag: string
    var value: string
    var anchor: string
    var style: int
    var content: seq<Node>
    ghost var repr: set<Node>
    ghost var tree: Tree

    ghost predicate Valid()
      reads this, repr
      ensures Valid() ==> this in repr
      decreases repr
    {
      && this in repr
      && kind != Alias
      && (forall n :: n in content ==> n in repr && n.repr <= repr && this !in n.repr && n.Valid())
      && Separate(content)
      && |tree.content| == |content|
      && (forall i :: 0 <= i < |content| ==> tree.content[i] == content[i].tree)
      && tree == Tree.Node(kind, tag, value, anchor, style, tree.content, None)
    }

    /** sortMapping: reorders the key and value nodes in place by key text, dropping
        a trailing key without a value. */
    method SortMapping()
      requires Valid() && kind == Mapping
      modifies this`content, this`tree
      ensures Valid()
      ensures tree == old(tree).(content := Flatten(StableSort(PairsOf(old(tree.content)))))
      ensures forall n :: n in content ==> n in old(content)
    {
      var pairs := NodePairs(content);
      var sorted := SortNodes(pairs);
      ghost var before, trees := content, tree.content;
      SortedMembers(content);
      SortedDistinct(content);
      SortedTrees(content, trees);
      TakeContent(FlattenNodes(sorted), Flatten(StableSort(PairsOf(trees))));
    }

    /** One step of a loop over the children: the child is canonicalized where it stands. */
    method CanonicalizeChild(i: nat, float: FloatText)
      requires Valid() && i < |content|
      modifies repr
      ensures Valid() && repr == old(repr) && content == old(content)
      ensures tree == old(tree).(content := old(tree).content[i := Canon(old(tree).content[i], float)])
      decreases repr, 0
    {
      var child := content[i];
      assert child in content;
      child.Canonicalize(float);
      tree := tree.(content := tree.content[i := child.tree]);
    }

    method StripChild(i: nat)
      requires Valid() && i < |content|
      modifies repr
      ensures Valid() && repr == old(repr) && content == old(content)
      ensures tree == old(tree).(content := old(tree).content[i := Strip(old(tree).content[i])])
    {
      var child := content[i];
      assert child in content;
      child.anchor := "";
      child.tree := Strip(child.tree);
      tree := tree.(content := tree.content[i := child.tree]);
    }

    /** The loop over a mapping's values. */
    method CanonicalizeValues(float: FloatText)
      requires Valid()
      modifies repr
      ensures Valid() && repr == old(repr)
      ensures tree == old(tree).(content := tree.content) && |tree.content| == |old(tree).content|
      ensures forall p :: 0 <= p < |tree.content| / 2 ==>
                PairsOf(tree.content)[p] == CanonValue(PairsOf(old(tree).content)[p], float)
      decreases repr, 1
    {
      ghost var was := tree;
      ghost var ps := PairsOf(was.content);
      for p := 0 to |content| / 2
        invariant Valid() && repr == old(repr) && content == old(content)
        invariant tree == was.(content := tree.content) && |tree.content| == |was.content|
        invariant ValuesDone(ps, PairsOf(tree.content), p, float)
      {
        ValueDone(ps, tree.content, p, float);
        CanonicalizeChild(2 * p + 1, float);
      }
    }

    /** The loop over a mapping's keys. */
    method StripKeys()
      requires Valid()
      modifies repr
      ensures Valid() && repr == old(repr)
      ensures tree == old(tree).(content := tree.content) && |tree.content| == |old(tree).content|
      ensures forall p :: 0 <= p < |tree.content| / 2 ==>
                PairsOf(tree.content)[p] == StripKey(PairsOf(old(tree).content)[p])
    {
      ghost var was := tree;
      ghost var ps := PairsOf(was.content);
      for p := 0 to |content| / 2
        invariant Valid() && repr == old(repr) && content == old(content)
        invariant tree == was.(content := tree.content) && |tree.content| == |was.content|
        invariant KeysDone(ps, PairsOf(tree.content), p)
      {
        KeyDone(ps, tree.content, p);
        StripChild(2 * p);
      }
    }

    /** The loop over a sequence's items. */
    method CanonicalizeItems(float: FloatText)
      requires Valid()
      modifies repr
      ensures Valid() && repr == old(repr)
      ensures tree == old(tree).(content := tree.content) && |tree.content| == |old(tree).content|
      ensures forall j :: 0 <= j < |tree.content| ==> tree.content[j] == Canon(old(tree).content[j], float)
      decreases repr, 1
    {
      ghost var was := tree;
      for i := 0 to |content|
        invariant Valid() && repr == old(repr) && content == old(content)
        invariant tree == was.(content := tree.content) && |tree.content| == |was.content|
        invariant forall j :: 0 <= j < |was.content| ==>
                    tree.content[j] == if j < i then Canon(was.content[j], float) else was.content[j]
      {
        CanonicalizeChild(i, float);
      }
    }

    /** canonicalizeNode: the node ends up standing for the canonical form of what it stood for. */
    method Canonicalize(float: FloatText)
      requires Valid()
      modifies repr
      ensures Valid() && repr == old(repr)
      ensures tree == Canon(old(tree), float)
      decreases repr, 3
    {
      ghost var before := tree;
      anchor := "";
      tree := Strip(tree);
      match kind {
        case Mapping =>
          CanonicalizeMapping(before, float);
        case Sequence =>
          CanonicalizeSequence(before, float);
        case Scalar =>
          CanonicalizeScalar(before, float);
      }
    }

    method CanonicalizeScalar(ghost before: Tree, float: FloatText)
      requires Valid() && kind == Scalar && tree == Strip(before)
      modifies this`value, this`style, this`tree
      ensures Valid() && tree == Canon(before, float)
    {
      if tag == "!!float" && float(value).Some? {
        value := float(value).value;
        style := 0;
        tree := tree.(value := value, style := 0);
      }
    }

    method CanonicalizeSequence(ghost before: Tree, float: FloatText)
      requires Valid() && kind == Sequence && tree == Strip(before)
      modifies repr
      ensures Valid() && repr == old(repr)
      ensures tree == Canon(before, float)
      decreases repr, 2
    {
      CanonicalizeItems(float);
      SequenceForm(before, tree.content, float);
    }

    method CanonicalizeMapping(ghost before: Tree, float: FloatText)
      requires Valid() && kind == Mapping && tree == Strip(before)
      modifies repr
      ensures Valid() && repr == old(repr)
      ensures tree == Canon(before, float)
      decreases repr, 2
    {
      SortMapping();
      PairsOfFlatten(StableSort(PairsOf(before.content)));
      CanonicalizeValues(float);
      StripKeys();
      MappingForm(before, tree.content, float);
    }

    /** The loop of removeKey: the nodes of the pairs with another key, in order. */
    method KeptNodes(key: string) returns (out: seq<Node>)
      requires Distinct(content) && Carries(content, tree.content)
      requires forall n :: n in content ==> n.value == n.tree.value
      ensures KeptUpTo(content, tree.content, key, |content| / 2, out)
    {
      out := [];
      for i := 0 to |content| / 2
        invariant KeptUpTo(content, tree.content, key, i, out)
      {
        KeptMore(content, tree.content, key, i, out);
        out := WithPair(content, key, i, out);
      }
    }

    /** A mapping takes some of its own nodes for its content. */
    method TakeContent(out: seq<Node>, ghost trees: seq<Tree>)
      requires Valid() && Carries(out, trees) && forall n :: n in out ==> n in content
      requires Distinct(out)
      modifies this`content, this`tree
      ensures Valid() && tree == old(tree).(content := trees) && content == out
    {
      content := out;
      tree := tree.(content := trees);
    }

    /** removeKey: keeps the pairs with another key, in place. */
    method RemoveKey(key: string)
      requires Valid()
      modifies this`content, this`tree
      ensures Valid()
      ensures tree == Canonicals.RemoveKey(old(tree), key)
    {
      if kind == Mapping {
        var out := KeptNodes(key);
        KeptAll(content, tree.content, key, out);
        TakeContent(out, Flatten(WithoutKey(PairsOf(tree.content), key)));
      }
    }

    method RemoveExcluded()
      requires Valid()
      modifies this`content, this`tree
      ensures Valid()
      ensures tree == Canonicals.RemoveKey(Canonicals.RemoveKey(old(tree), "digest"), "generated_at")
    {
      RemoveKey("digest");
      RemoveKey("generated_at");
    }

    /** Where mappingValue finds the key. */
    method FindKey(key: string) returns (r: Option<nat>)
      requires Valid()
      ensures r == if kind == Mapping then Canonicals.FindKey(PairsOf(tree.content), key) else None
    {
      if kind != Mapping {
        return None;
      }
      ghost var ps := PairsOf(tree.content);
      for i := 0 to |content| / 2
        invariant forall j :: 0 <= j < i ==> ps[j].k.value != key
      {
        assert content[2 * i] in content && ps[i].k == content[2 * i].tree;
        if content[2 * i].value == key {
          FindKeyIs(ps, key, i);
          return Some(i);
        }
      }
      r := None;
    }

    /** dropExcludedMetaFields: rewrites the meta mapping where it stands. */
    method DropExcludedMetaFields()
      requires Valid()
      modifies repr
      ensures Valid() && repr == old(repr)
      ensures tree == Canonicals.DropExcludedMetaFields(old(tree))
    {
      ghost var was := tree;
      var at := FindKey("meta");
      if at.Some? {
        DropAt(was, at.value);
        DropFromChild(2 * at.value + 1);
      }
    }

    method DropFromChild(i: nat)
      requires Valid() && i < |content|
      modifies repr
      ensures Valid() && repr == old(repr)
      ensures tree == WithoutExcluded(old(tree), i)
    {
      var meta := content[i];
      assert meta in content;
      meta.RemoveExcluded();
      tree := tree.(content := tree.content[i := meta.tree]);
    }

    /** What Canonical does to the root mapping before encoding it. */
    method CanonicalForm(float: FloatText)
      requires Valid()
      modifies repr
      ensures Valid() && repr == old(repr)
      ensures tree == Canon(Canonicals.DropExcludedMetaFields(old(tree)), float)
    {
      DropExcludedMetaFields();
      Canonicalize(float);
    }
  }

  ghost predicate Distinct(ns: seq<Node>) {
    forall i, j :: 0 <= i < j < |ns| ==> ns[i] != ns[j]
  }

  lemma DistinctMore(ns: seq<Node>, k: Node, v: Node)
    requires Distinct(ns) && k !in ns && v !in ns && k != v
    ensures Distinct(ns + [k, v])
  {
  }

  /** The next two of distinct nodes are none of those before them. */
  lemma NextApart(content: seq<Node>, p: nat)
    requires Distinct(content) && p + 1 < |content|
    ensures content[p] !in content[..p] && content[p + 1] !in content[..p] && content[p] != content[p + 1]
    ensures forall n :: n in content[..p + 2] <==> n in content[..p] || n == content[p] || n == content[p + 1]
  {
    assert content[..p + 2] == content[..p] + [content[p], content[p + 1]];
  }

  /** The nodes stand for the trees, one by one. */
  ghost predicate Carries(ns: seq<Node>, ts: seq<Tree>)
    reads ns
  {
    |ns| == |ts| && forall i :: 0 <= i < |ns| ==> ns[i].tree == ts[i]
  }

  /** out holds the nodes of the first i pairs with another key. */
  ghost predicate KeptUpTo(content: seq<Node>, trees: seq<Tree>, key: string, i: nat, out: seq<Node>)
    requires 2 * i <= |content| == |trees|
    reads out
  {
    && Carries(out, Flatten(WithoutKey(PairsOf(trees)[..i], key)))
    && (forall n :: n in out ==> n in content[..2 * i])
    && Distinct(out)
  }

  /** One step of the loop: the pair is kept unless it has the key. */
  function WithPair(content: seq<Node>, key: string, i: nat, out: seq<Node>): seq<Node>
    requires 2 * i + 1 < |content|
    reads content
  {
    if content[2 * i].value == key then out else out + [content[2 * i], content[2 * i + 1]]
  }

  lemma KeptAll(content: seq<Node>, trees: seq<Tree>, key: string, out: seq<Node>)
    requires |content| == |trees| && KeptUpTo(content, trees, key, |content| / 2, out)
    ensures Carries(out, Flatten(WithoutKey(PairsOf(trees), key))) && Distinct(out)
    ensures forall n :: n in out ==> n in content
  {
    assert PairsOf(trees)[..|content| / 2] == PairsOf(trees);
  }

  lemma KeptMore(content: seq<Node>, trees: seq<Tree>, key: string, i: nat, out: seq<Node>)
    requires Distinct(content) && Carries(content, trees) && 2 * i + 1 < |content|
    requires content[2 * i].value == content[2 * i].tree.value && KeptUpTo(content, trees, key, i, out)
    ensures KeptUpTo(content, trees, key, i + 1, WithPair(content, key, i, out))
  {
    var k, v, ps := content[2 * i], content[2 * i + 1], PairsOf(trees);
    NextApart(content, 2 * i);
    assert ps[i] == Pair(k.tree, v.tree);
    assert ps[..i + 1] == ps[..i] + [ps[i]];
    KeepPair(ps[..i], ps[i], key);
    if k.value != key {
      DistinctMore(out, k, v);
      CarriesMore(out, Flatten(WithoutKey(ps[..i], key)), k, v);
    }
  }

  lemma CarriesMore(ns: seq<Node>, ts: seq<Tree>, k: Node, v: Node)
    requires Carries(ns, ts)
    ensures Carries(ns + [k, v], ts + [k.tree, v.tree])
  {
  }

  /** The tree with the excluded fields gone from its i-th child. */
  function WithoutExcluded(t: Tree, i: nat): Tree
    requires i < |t.content|
  {
    t.(content := t.content[i := Canonicals.RemoveKey(Canonicals.RemoveKey(t.content[i], "digest"), "generated_at")])
  }

  lemma DropAt(t: Tree, i: nat)
    requires t.kind == Mapping && Canonicals.FindKey(PairsOf(t.content), "meta") == Some(i)
    ensures 2 * i + 1 < |t.content|
    ensures Canonicals.DropExcludedMetaFields(t) == WithoutExcluded(t, 2 * i + 1)
  {
  }

  lemma KeepPair(ps: seq<Pair>, p: Pair, key: string)
    ensures Flatten(WithoutKey(ps + [p], key))
            == Flatten(WithoutKey(ps, key)) + (if p.k.value == key then [] else [p.k, p.v])
  {
    WithoutKeyAppend(ps, [p], key);
    assert WithoutKey([p], key) == (if p.k.value == key then [] else [p]) + [];
    var kept := WithoutKey(ps, key);
    if p.k.value != key {
      assert (kept + [p])[..|kept|] == kept;
    } else {
      assert kept + [] == kept;
    }
  }

  lemma FindKeyIs(ps: seq<Pair>, key: string, i: nat)
    requires i < |ps| && ps[i].k.value == key && forall j :: 0 <= j < i ==> ps[j].k.value != key
    ensures Canonicals.FindKey(ps, key) == Some(i)
  {
  }

  lemma SequenceForm(before: Tree, after: seq<Tree>, float: FloatText)
    requires before.kind == Sequence && |after| == |before.content|
    requires forall j :: 0 <= j < |after| ==> after[j] == Canon(before.content[j], float)
    ensures Canon(before, float) == Strip(before).(content := after)
  {
    assert Canon(before, float).content == after;
  }

  // ----- sorting first and canonicalizing first agree -----

  function Dress(p: Pair, float: FloatText): Pair {
    Pair(Strip(p.k), Canon(p.v, float))
  }

  function DressAll(ps: seq<Pair>, float: FloatText): (qs: seq<Pair>)
    ensures |qs| == |ps| && forall i :: 0 <= i < |ps| ==> qs[i] == Dress(ps[i], float)
  {
    seq(|ps|, i requires 0 <= i < |ps| => Dress(ps[i], float))
  }

  lemma DressCons(p: Pair, s: seq<Pair>, float: FloatText)
    ensures DressAll([p] + s, float) == [Dress(p, float)] + DressAll(s, float)
  {
  }

  lemma {:induction false} InsertDressed(p: Pair, s: seq<Pair>, float: FloatText)
    ensures DressAll(InsertPair(p, s), float) == InsertPair(Dress(p, float), DressAll(s, float))
  {
    if s == [] {
      DressCons(p, [], float);
      assert [p] + [] == [p] && DressAll([], float) == [];
    } else {
      var rest := s[1..];
      assert s == [s[0]] + rest;
      DressCons(s[0], rest, float);
      if Less(s[0].k.value, p.k.value) {
        InsertDressed(p, rest, float);
        DressCons(s[0], InsertPair(p, rest), float);
      } else {
        DressCons(p, s, float);
      }
    }
  }

  lemma {:induction false} SortDressed(ps: seq<Pair>, float: FloatText)
    ensures DressAll(StableSort(ps), float) == StableSort(DressAll(ps, float))
  {
    if ps != [] {
      assert ps == [ps[0]] + ps[1..];
      DressCons(ps[0], ps[1..], float);
      SortDressed(ps[1..], float);
      InsertDressed(ps[0], StableSort(ps[1..]), float);
    }
  }

  lemma DressedPairs(t: Tree, float: FloatText)
    ensures DressAll(PairsOf(t.content), float) == CanonPairs(t, float)
  {
  }

  /** Contents of even length are determined by their pairs. */
  lemma SamePairsSameContent(a: seq<Tree>, b: seq<Tree>)
    requires |a| == |b| && |a| % 2 == 0 && PairsOf(a) == PairsOf(b)
    ensures a == b
  {
    forall j | 0 <= j < |a|
      ensures a[j] == b[j]
    {
      var p := j / 2;
      assert PairsOf(a)[p] == PairsOf(b)[p];
      assert j == 2 * p || j == 2 * p + 1;
    }
  }

  lemma MappingForm(before: Tree, after: seq<Tree>, float: FloatText)
    requires before.kind == Mapping
    requires var ps := StableSort(PairsOf(before.content));
             |after| == 2 * |ps| && forall p :: 0 <= p < |ps| ==> PairsOf(after)[p] == Dress(ps[p], float)
    ensures Canon(before, float) == Strip(before).(content := after)
  {
    var ps := StableSort(PairsOf(before.content));
    SortDressed(PairsOf(before.content), float);
    DressedPairs(before, float);
    PairsOfFlatten(DressAll(ps, float));
    assert PairsOf(after) == DressAll(ps, float);
    SamePairsSameContent(after, Flatten(DressAll(ps, float)));
  }

  function CanonValue(p: Pair, float: FloatText): Pair {
    Pair(p.k, Canon(p.v, float))
  }

  function StripKey(p: Pair): Pair {
    Pair(Strip(p.k), p.v)
  }

  /** The first p pairs have their values canonicalized. */
  ghost predicate ValuesDone(before: seq<Pair>, now: seq<Pair>, p: nat, float: FloatText) {
    && |now| == |before|
    && forall q :: 0 <= q < |now| ==> now[q] == if q < p then CanonValue(before[q], float) else before[q]
  }

  lemma ValueDone(before: seq<Pair>, c: seq<Tree>, p: nat, float: FloatText)
    requires p < |c| / 2 && ValuesDone(before, PairsOf(c), p, float)
    ensures ValuesDone(before, PairsOf(c[2 * p + 1 := Canon(c[2 * p + 1], float)]), p + 1, float)
  {
    UpdateValue(c, p, Canon(c[2 * p + 1], float));
    assert PairsOf(c)[p] == Pair(c[2 * p], c[2 * p + 1]);
  }

  ghost predicate KeysDone(before: seq<Pair>, now: seq<Pair>, p: nat) {
    |now| == |before| && forall q :: 0 <= q < |now| ==> now[q] == if q < p then StripKey(before[q]) else before[q]
  }

  lemma KeyDone(before: seq<Pair>, c: seq<Tree>, p: nat)
    requires p < |c| / 2 && KeysDone(before, PairsOf(c), p)
    ensures KeysDone(before, PairsOf(c[2 * p := Strip(c[2 * p])]), p + 1)
  {
    UpdateKey(c, p, Strip(c[2 * p]));
    assert PairsOf(c)[p] == Pair(c[2 * p], c[2 * p + 1]);
  }

  lemma UpdateValue(c: seq<Tree>, p: nat, x: Tree)
    requires p < |c| / 2
    ensures PairsOf(c[2 * p + 1 := x]) == PairsOf(c)[p := Pair(PairsOf(c)[p].k, x)]
  {
  }

  lemma UpdateKey(c: seq<Tree>, p: nat, x: Tree)
    requires p < |c| / 2
    ensures PairsOf(c[2 * p := x]) == PairsOf(c)[p := Pair(x, PairsOf(c)[p].v)]
  {
  }
}
