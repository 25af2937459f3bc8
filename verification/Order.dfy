/** The byte order Go's sort.Strings uses, and the fact both canonicalizations rest
    on: a set of strings has exactly one strictly ascending listing. */
module Order {

  predicate Less(a: string, b: string) {
    if b == "" then false
    else if a == "" then true
    else if a[0] == b[0] then Less(a[1..], b[1..])
    else a[0] < b[0]
  }

  lemma {:induction false} LessTotal(a: string, b: string)
    ensures Less(a, b) || a == b || Less(b, a)
    ensures !(Less(a, b) && Less(b, a)) && (a == b ==> !Less(a, b))
  {
    if a != "" && b != "" && a[0] == b[0] {
      LessTotal(a[1..], b[1..]);
      assert a == [a[0]] + a[1..] && b == [b[0]] + b[1..];
    }
  }

  lemma {:induction false} LessTransitive(a: string, b: string, c: string)
    requires Less(a, b) && Less(b, c)
    ensures Less(a, c)
  {
    if a != "" && a[0] == b[0] && b[0] == c[0] {
      LessTransitive(a[1..], b[1..], c[1..]);
    }
  }

  ghost predicate Ascending(s: seq<string>) {
    forall i, j :: 0 <= i < j < |s| ==> Less(s[i], s[j])
  }

  function Elements<T>(s: seq<T>): set<T> {
    set x | x in s
  }

  lemma FirstIsLeast(s: seq<string>, x: string)
    requires Ascending(s) && x in s
    ensures x == s[0] || Less(s[0], x)
  {
    var i :| 0 <= i < |s| && s[i] == x;
  }

  lemma HasElement(s: seq<string>)
    requires s != []
    ensures Elements(s) != {}
  {
    assert s[0] in Elements(s);
  }

  /** Two strictly ascending listings of the same strings are the same listing. */
  lemma {:induction false} AscendingUnique(s: seq<string>, t: seq<string>)
    requires Ascending(s) && Ascending(t) && Elements(s) == Elements(t)
    ensures s == t
  {
    if s == [] {
      if t != [] {
        HasElement(t);
      }
    } else {
      assert s[0] in Elements(s);
      assert t[0] in Elements(t);
      FirstIsLeast(s, t[0]);
      FirstIsLeast(t, s[0]);
      LessTotal(s[0], t[0]);
      TailElements(s);
      TailElements(t);
      AscendingUnique(s[1..], t[1..]);
      assert s == [s[0]] + s[1..] && t == [t[0]] + t[1..];
    }
  }

  lemma TailElements(s: seq<string>)
    requires Ascending(s) && s != []
    ensures Elements(s[1..]) == Elements(s) - {s[0]}
  {
    forall x
      ensures x in Elements(s[1..]) <==> x in Elements(s) - {s[0]}
    {
      if x in s[1..] {
        var i :| 0 <= i < |s[1..]| && s[1..][i] == x;
        LessTotal(s[0], s[i + 1]);
      }
      if x in s && x != s[0] {
        var i :| 0 <= i < |s| && s[i] == x;
        assert s[1..][i - 1] == x;
      }
    }
  }

  /** Where x goes in an ascending listing that does not hold it yet. */
  function Insert(s: seq<string>, x: string): (t: seq<string>) {
    if s == [] then [x]
    else if Less(x, s[0]) then [x] + s
    else [s[0]] + Insert(s[1..], x)
  }

  lemma {:induction false} InsertAscending(s: seq<string>, x: string)
    requires Ascending(s) && x !in s
    ensures Ascending(Insert(s, x)) && Elements(Insert(s, x)) == Elements(s) + {x}
  {
    if s == [] {
    } else if Less(x, s[0]) {
      forall j | 0 <= j < |s|
        ensures Less(x, s[j])
      {
        if j > 0 {
          LessTransitive(x, s[0], s[j]);
        }
      }
    } else {
      LessTotal(x, s[0]);
      var rest := s[1..];
      InsertAscending(rest, x);
      var t := Insert(rest, x);
      forall j | 0 <= j < |t|
        ensures Less(s[0], t[j])
      {
        assert t[j] in Elements(t);
        if t[j] != x {
          assert t[j] in rest;
        }
      }
      assert s == [s[0]] + rest;
      assert Elements(s) == {s[0]} + Elements(rest);
      assert Elements(Insert(s, x)) == {s[0]} + Elements(t);
    }
  }

  predicate IsLeast(names: set<string>, x: string) {
    x in names && forall y :: y in names ==> y == x || Less(x, y)
  }

  lemma {:induction false} LeastExists(names: set<string>) returns (x: string)
    requires names != {}
    ensures IsLeast(names, x)
  {
    x :| x in names;
    if names != {x} {
      var y := LeastExists(names - {x});
      LessTotal(x, y);
      if Less(x, y) {
        forall z | z in names
          ensures z == x || Less(x, z)
        {
          if z != x && z != y {
            LessTransitive(x, y, z);
          }
        }
      } else {
        x := y;
      }
    }
  }

  /** The least of a set of strings. */
  function Least(names: set<string>): (x: string)
    requires names != {}
    ensures IsLeast(names, x)
  {
    assert exists x :: IsLeast(names, x) by { var w := LeastExists(names); }
    assert forall x, y :: IsLeast(names, x) && IsLeast(names, y) ==> x == y by {
      forall x, y | IsLeast(names, x) && IsLeast(names, y)
        ensures x == y
      {
        LessTotal(x, y);
      }
    }
    var x :| x in names && IsLeast(names, x);
    x
  }

  /** The ascending listing of a set of strings. */
  function Sorted(names: set<string>): (s: seq<string>)
    ensures Ascending(s) && Elements(s) == names
  {
    if names == {} then []
    else
      var x := Least(names);
      var rest := Sorted(names - {x});
      assert forall i :: 0 <= i < |rest| ==> rest[i] in Elements(rest);
      assert Elements([x] + rest) == {x} + Elements(rest);
      [x] + rest
  }
}
