/** The string operations the source takes from Go's strings package, on ASCII text. */
module Text {
  import opened Wrappers

  /** unicode.IsSpace on ASCII, what strings.TrimSpace removes. */
  predicate IsBlank(c: char) {
    c == ' ' || c == '\t' || c == '\n' || c == '\r' || c == '\U{0B}' || c == '\U{0C}'
  }

  predicate AllBlank(s: string) {
    forall i :: 0 <= i < |s| ==> IsBlank(s[i])
  }

  function TrimLeft(s: string): string {
    if s != "" && IsBlank(s[0]) then TrimLeft(s[1..]) else s
  }

  function TrimRight(s: string): string {
    if s != "" && IsBlank(s[|s| - 1]) then TrimRight(s[..|s| - 1]) else s
  }

  /** strings.TrimSpace. */
  function Trim(s: string): (t: string)
    ensures |t| <= |s|
  {
    TrimLeftLength(s);
    TrimRightLength(TrimLeft(s));
    TrimRight(TrimLeft(s))
  }

  lemma {:induction false} TrimLeftLength(s: string)
    ensures |TrimLeft(s)| <= |s|
  {
    if s != "" && IsBlank(s[0]) {
      TrimLeftLength(s[1..]);
    }
  }

  lemma {:induction false} TrimRightLength(s: string)
    ensures |TrimRight(s)| <= |s|
  {
    if s != "" && IsBlank(s[|s| - 1]) {
      TrimRightLength(s[..|s| - 1]);
    }
  }

  /** Text that trimming leaves alone. */
  predicate Tight(s: string) {
    s != "" && !IsBlank(s[0]) && !IsBlank(s[|s| - 1])
  }

  lemma {:induction false} TrimLeftPadded(l: string, x: string)
    requires AllBlank(l) && (x == "" || !IsBlank(x[0]))
    ensures TrimLeft(l + x) == x
  {
    if l == "" {
      assert l + x == x;
    } else {
      assert (l + x)[1..] == l[1..] + x;
      TrimLeftPadded(l[1..], x);
    }
  }

  lemma {:induction false} TrimRightPadded(x: string, r: string)
    requires AllBlank(r) && (x == "" || !IsBlank(x[|x| - 1]))
    ensures TrimRight(x + r) == x
  {
    if r == "" {
      assert x + r == x;
    } else {
      assert (x + r)[..|x + r| - 1] == x + r[..|r| - 1];
      TrimRightPadded(x, r[..|r| - 1]);
    }
  }

  lemma TrimPadded(l: string, x: string, r: string)
    requires AllBlank(l) && AllBlank(r) && Tight(x)
    ensures Trim(l + x + r) == x
  {
    assert l + x + r == l + (x + r);
    TrimLeftPadded(l, x + r);
    TrimRightPadded(x, r);
  }

  lemma TightTrim(x: string)
    requires Tight(x)
    ensures Trim(x) == x
  {
    assert "" + x + "" == x;
    TrimPadded("", x, "");
  }

  lemma {:induction false} TrimLeftStart(s: string)
    ensures TrimLeft(s) == "" || !IsBlank(TrimLeft(s)[0])
  {
    if s != "" && IsBlank(s[0]) {
      TrimLeftStart(s[1..]);
    }
  }

  lemma {:induction false} TrimRightEnds(s: string)
    requires s == "" || !IsBlank(s[0])
    ensures TrimRight(s) == "" || Tight(TrimRight(s))
  {
    if s != "" && IsBlank(s[|s| - 1]) {
      TrimRightEnds(s[..|s| - 1]);
    }
  }

  lemma TrimTwice(s: string)
    ensures Trim(s) == "" || Tight(Trim(s))
    ensures Trim(Trim(s)) == Trim(s)
  {
    TrimLeftStart(s);
    TrimRightEnds(TrimLeft(s));
    if Trim(s) != "" {
      TightTrim(Trim(s));
    }
  }

  function TrimCharLeft(s: string, c: char): (t: string)
    ensures t == "" || t[0] != c
    ensures s == "" || s[0] != c ==> t == s
  {
    if s != "" && s[0] == c then TrimCharLeft(s[1..], c) else s
  }

  function TrimCharRight(s: string, c: char): (t: string)
    ensures s == "" || s[|s| - 1] != c ==> t == s
  {
    if s != "" && s[|s| - 1] == c then TrimCharRight(s[..|s| - 1], c) else s
  }

  /** strings.Trim with a cutset of one character. */
  function TrimChar(s: string, c: char): string {
    TrimCharRight(TrimCharLeft(s, c), c)
  }

  function UpperChar(c: char): char {
    if 'a' <= c <= 'z' then c - 'a' + 'A' else c
  }

  function LowerChar(c: char): char {
    if 'A' <= c <= 'Z' then c - 'A' + 'a' else c
  }

  /** strings.ToLower. */
  function Lower(s: string): (l: string)
    ensures |l| == |s| && forall i :: 0 <= i < |s| ==> l[i] == LowerChar(s[i])
  {
    seq(|s|, i requires 0 <= i < |s| => LowerChar(s[i]))
  }

  /** strings.HasSuffix. */
  predicate HasSuffix(s: string, p: string) {
    |p| <= |s| && s[|s| - |p|..] == p
  }

  function Upper(s: string): (u: string)
    ensures |u| == |s| && forall i :: 0 <= i < |s| ==> u[i] == UpperChar(s[i])
  {
    seq(|s|, i requires 0 <= i < |s| => UpperChar(s[i]))
  }

  /** p stands in s at position i. */
  predicate At(s: string, i: int, p: string) {
    0 <= i && i + |p| <= |s| && s[i..i + |p|] == p
  }

  /** The first position from i on where p stands in s. */
  function IndexFrom(s: string, p: string, i: nat): (r: Option<nat>)
    ensures r.Some? ==> i <= r.value && At(s, r.value, p) && forall j :: i <= j < r.value ==> !At(s, j, p)
    ensures r.None? ==> forall j :: i <= j ==> !At(s, j, p)
    decreases |s| - i
  {
    if i + |p| > |s| then None
    else if At(s, i, p) then Some(i)
    else if i >= |s| then None
    else IndexFrom(s, p, i + 1)
  }

  /** strings.Index. */
  function Index(s: string, p: string): (r: Option<nat>)
    ensures r.Some? ==> At(s, r.value, p) && forall j :: 0 <= j < r.value ==> !At(s, j, p)
    ensures r.None? ==> forall j :: 0 <= j ==> !At(s, j, p)
  {
    IndexFrom(s, p, 0)
  }

  /** strings.Contains. */
  predicate Contains(s: string, p: string) {
    Index(s, p).Some?
  }

  /** The position of the last occurrence of a character. */
  function LastIndexOf(s: string, c: char): (r: Option<nat>)
    ensures r.Some? ==> r.value < |s| && s[r.value] == c && forall j :: r.value < j < |s| ==> s[j] != c
    ensures r.None? ==> c !in s
  {
    if s == "" then None
    else if s[|s| - 1] == c then Some(|s| - 1)
    else LastIndexOf(s[..|s| - 1], c)
  }

  lemma AtChar(s: string, i: nat, p: string, k: nat)
    requires At(s, i, p) && k < |p|
    ensures s[i + k] == p[k]
  {
    assert s[i..i + |p|][k] == s[i + k];
  }

  lemma CharIfAt(s: string, i: nat, p: string, k: nat)
    requires k < |p|
    ensures At(s, i, p) ==> i + k < |s| && s[i + k] == p[k]
  {
    if At(s, i, p) {
      AtChar(s, i, p, k);
    }
  }

  lemma IndexIs(s: string, p: string, r: nat)
    requires At(s, r, p) && forall j :: 0 <= j < r ==> !At(s, j, p)
    ensures Index(s, p) == Some(r)
  {
    var q := Index(s, p);
    assert q.Some?;
  }
}
