/** internal/hydrate/checkdomain.go: splitting a CHECK body on its top-level ANDs.
    The functions scan what is left of the text; the methods are the source's index loops. */
module CheckText {
  import opened Text

  /** The blanks that may stand beside a keyword. */
  predicate IsSpace(c: char) {
    c == ' ' || c == '\t' || c == '\n' || c == '\r'
  }

  predicate AllSpace(s: string) {
    forall i :: 0 <= i < |s| ==> IsSpace(s[i])
  }

  /** matchesKeyword for AND, in any case, on the text that is left after prev. A blank
      prev also stands for the start of the text. */
  predicate StartsAnd(prev: char, rest: string) {
    && |rest| >= 3
    && UpperChar(rest[0]) == 'A' && UpperChar(rest[1]) == 'N' && UpperChar(rest[2]) == 'D'
    && (IsSpace(prev) || prev == ')')
    && (|rest| > 3 ==> IsSpace(rest[3]) || rest[3] == '(')
  }

  // ----- stripOuterParens -----

  /** No closing parenthesis before the last character brings the depth back to zero. */
  predicate Wraps(rest: string, depth: int, inStr: bool) {
    if rest == "" then true
    else if rest[0] == '\'' then Wraps(rest[1..], depth, !inStr)
    else if inStr then Wraps(rest[1..], depth, inStr)
    else if rest[0] == '(' then Wraps(rest[1..], depth + 1, inStr)
    else if rest[0] == ')' then !(depth - 1 == 0 && |rest| != 1) && Wraps(rest[1..], depth - 1, inStr)
    else Wraps(rest[1..], depth, inStr)
  }

  predicate HasEndParens(s: string) {
    |s| >= 2 && s[0] == '(' && s[|s| - 1] == ')'
  }

  function StripOuterParens(s: string): string
    decreases |s|
  {
    var t := Trim(s);
    if HasEndParens(t) && Wraps(t, 0, false) then StripOuterParens(t[1..|t| - 1]) else t
  }

  method StripOuterParensLoop(s: string) returns (r: string)
    ensures r == StripOuterParens(s)
  {
    r := s;
    while true
      invariant StripOuterParens(r) == StripOuterParens(s)
      decreases |r|
    {
      TrimTwice(r);
      r := Trim(r);
      if |r| < 2 || r[0] != '(' || r[|r| - 1] != ')' {
        return;
      }
      var depth, inStr, wraps := 0, false, true;
      var i := 0;
      while i < |r| && wraps
        invariant 0 <= i <= |r|
        invariant wraps ==> Wraps(r[i..], depth, inStr) == Wraps(r, 0, false)
        invariant !wraps ==> !Wraps(r, 0, false)
      {
        assert r[i..][1..] == r[i + 1..];
        if r[i] == '\'' {
          inStr := !inStr;
        } else if inStr {
        } else if r[i] == '(' {
          depth := depth + 1;
        } else if r[i] == ')' {
          depth := depth - 1;
          if depth == 0 && i != |r| - 1 {
            wraps := false;
          }
        }
        i := i + 1;
      }
      if !wraps {
        return;
      }
      r := r[1..|r| - 1];
    }
  }

  // ----- splitConjuncts -----

  /** The parts still to come, cur being the part read so far. */
  function Split(prev: char, rest: string, depth: int, inStr: bool, cur: string): seq<string>
    decreases |rest|
  {
    if rest == "" then [cur]
    else
      var c := rest[0];
      if c == '\'' then Split(c, rest[1..], depth, !inStr, cur + [c])
      else if inStr then Split(c, rest[1..], depth, inStr, cur + [c])
      else if c == '(' then Split(c, rest[1..], depth + 1, inStr, cur + [c])
      else if c == ')' then Split(c, rest[1..], depth - 1, inStr, cur + [c])
      else if depth == 0 && StartsAnd(prev, rest) then [cur] + Split(rest[2], rest[3..], depth, inStr, "")
      else Split(c, rest[1..], depth, inStr, cur + [c])
  }

  /** splitConjuncts. */
  function Conjuncts(expr: string): seq<string> {
    Split(' ', StripOuterParens(expr), 0, false, "")
  }

  method SplitConjuncts(expr: string) returns (parts: seq<string>)
    ensures parts == Conjuncts(expr)
  {
    var e := StripOuterParensLoop(expr);
    parts := [];
    var depth, inStr, start := 0, false, 0;
    var i := 0;
    while i < |e|
      invariant 0 <= start <= i <= |e|
      invariant parts + Split(if i == 0 then ' ' else e[i - 1], e[i..], depth, inStr, e[start..i]) == Conjuncts(expr)
    {
      ghost var rest := e[i..];
      assert rest[1..] == e[i + 1..] && e[start..i] + [e[i]] == e[start..i + 1];
      if e[i] == '\'' {
        inStr := !inStr;
      } else if inStr {
      } else if e[i] == '(' {
        depth := depth + 1;
      } else if e[i] == ')' {
        depth := depth - 1;
      } else if depth == 0 && StartsAnd(if i == 0 then ' ' else e[i - 1], e[i..]) {
        assert rest[3..] == e[i + 3..] && e[i + 3..i + 3] == "";
        parts := parts + [e[start..i]];
        i := i + 2;
        start := i + 1;
      }
      i := i + 1;
    }
    assert e[i..] == "" && e[start..] == e[start..i];
    parts := parts + [e[start..]];
  }

  // ----- balanced text -----

  /** From this state on, parentheses outside string literals close properly and the
      last literal is closed. */
  predicate Closes(rest: string, depth: int, inStr: bool) {
    if rest == "" then depth == 0 && !inStr
    else if rest[0] == '\'' then Closes(rest[1..], depth, !inStr)
    else if inStr then Closes(rest[1..], depth, inStr)
    else if rest[0] == '(' then Closes(rest[1..], depth + 1, inStr)
    else if rest[0] == ')' then depth > 0 && Closes(rest[1..], depth - 1, inStr)
    else Closes(rest[1..], depth, inStr)
  }

  predicate Balanced(s: string) {
    Closes(s, 0, false)
  }

  /** Balanced text followed by more balanced text. */
  lemma {:induction false} ClosesThen(x: string, y: string, depth: int, inStr: bool, d: int)
    requires Closes(x, depth, inStr) && d >= 0 && Closes(y, d, false)
    ensures Closes(x + y, depth + d, inStr)
    decreases |x|
  {
    if x == "" {
      assert x + y == y;
    } else {
      assert (x + y)[1..] == x[1..] + y;
      if x[0] == '\'' {
        ClosesThen(x[1..], y, depth, !inStr, d);
      } else if !inStr && x[0] == '(' {
        ClosesThen(x[1..], y, depth + 1, inStr, d);
      } else if !inStr && x[0] == ')' {
        ClosesThen(x[1..], y, depth - 1, inStr, d);
      } else {
        ClosesThen(x[1..], y, depth, inStr, d);
      }
    }
  }

  lemma ParensBalanced(y: string)
    requires Balanced(y)
    ensures Balanced("(" + y + ")")
  {
    var s := "(" + y + ")";
    assert Closes(")", 1, false) by { assert ")"[1..] == ""; }
    ClosesThen(y, ")", 0, false, 1);
    assert s[1..] == y + ")";
  }

  /** What lies between wrapping parentheses never closes them. */
  lemma {:induction false} WrapsInside(y: string, depth: int, inStr: bool)
    requires depth >= 0 && Closes(y, depth, inStr)
    ensures Wraps(y + ")", depth + 1, inStr)
    decreases |y|
  {
    var s := y + ")";
    if y == "" {
      assert s == ")" && s[1..] == "";
    } else {
      assert s[1..] == y[1..] + ")";
      if y[0] == '\'' {
        WrapsInside(y[1..], depth, !inStr);
      } else if !inStr && y[0] == '(' {
        WrapsInside(y[1..], depth + 1, inStr);
      } else if !inStr && y[0] == ')' {
        WrapsInside(y[1..], depth - 1, inStr);
      } else {
        WrapsInside(y[1..], depth, inStr);
      }
    }
  }

  lemma {:induction false} InsideCloses(y: string, depth: int, inStr: bool)
    requires depth >= 0 && Wraps(y + ")", depth + 1, inStr) && Closes(y + ")", depth + 1, inStr)
    ensures Closes(y, depth, inStr)
    decreases |y|
  {
    var s := y + ")";
    if y == "" {
      assert s == ")" && s[1..] == "";
    } else {
      assert s[1..] == y[1..] + ")";
      if y[0] == '\'' {
        InsideCloses(y[1..], depth, !inStr);
      } else if !inStr && y[0] == '(' {
        InsideCloses(y[1..], depth + 1, inStr);
      } else if !inStr && y[0] == ')' {
        InsideCloses(y[1..], depth - 1, inStr);
      } else {
        InsideCloses(y[1..], depth, inStr);
      }
    }
  }

  /** On balanced text with parentheses at both ends, the scan says "wraps" exactly
      when what lies between them is balanced on its own. */
  lemma WrapsIffInsideBalanced(y: string)
    requires Balanced("(" + y + ")")
    ensures Wraps("(" + y + ")", 0, false) <==> Balanced(y)
  {
    var s := "(" + y + ")";
    assert s[0] == '(' && s[1..] == y + ")";
    if Balanced(y) {
      WrapsInside(y, 0, false);
    }
    if Wraps(s, 0, false) {
      InsideCloses(y, 0, false);
    }
  }

  // ----- enclosing parentheses disappear -----

  /** Blanks on the two sides of something. */
  datatype Pad = Pad(left: string, right: string)

  /** The text in one pair of parentheses per pad, with blanks around each pair. */
  function Enclose(text: string, pads: seq<Pad>): string {
    if pads == [] then text
    else pads[0].left + ("(" + Enclose(text, pads[1..]) + ")") + pads[0].right
  }

  ghost predicate BlankPads(pads: seq<Pad>) {
    forall i :: 0 <= i < |pads| ==> AllBlank(pads[i].left) && AllBlank(pads[i].right)
  }

  lemma {:induction false} BlanksBalanced(s: string)
    requires AllBlank(s)
    ensures Balanced(s)
  {
    if s != "" {
      BlanksBalanced(s[1..]);
    }
  }

  /** Whatever blanks and parentheses enclose balanced text, stripping ends where it
      would have ended on the text alone. */
  lemma {:induction false} StripEnclosed(text: string, pads: seq<Pad>)
    requires Balanced(text) && BlankPads(pads)
    ensures Balanced(Enclose(text, pads))
    ensures StripOuterParens(Enclose(text, pads)) == StripOuterParens(text)
    decreases |pads|
  {
    if pads != [] {
      var l, r := pads[0].left, pads[0].right;
      var inner := Enclose(text, pads[1..]);
      assert forall i :: 0 <= i < |pads[1..]| ==> pads[1..][i] == pads[i + 1];
      StripEnclosed(text, pads[1..]);
      ParensBalanced(inner);
      StripOnce(l, inner, r);
      BlanksBalanced(l);
      BlanksBalanced(r);
      ClosesThen("(" + inner + ")", r, 0, false, 0);
      ClosesThen(l, "(" + inner + ")" + r, 0, false, 0);
      assert l + ("(" + inner + ")") + r == l + ("(" + inner + ")" + r);
    }
  }

  lemma StripOnce(l: string, inner: string, r: string)
    requires AllBlank(l) && AllBlank(r) && Balanced(inner)
    ensures StripOuterParens(l + ("(" + inner + ")") + r) == StripOuterParens(inner)
  {
    var t := "(" + inner + ")";
    TrimPadded(l, t, r);
    ParensBalanced(inner);
    WrapsIffInsideBalanced(inner);
    assert t[1..|t| - 1] == inner;
  }

  // ----- splitting undoes joining -----

  /** Balanced text without a top-level AND of its own. */
  predicate Quiet(prev: char, rest: string, depth: int, inStr: bool)
    decreases |rest|
  {
    if rest == "" then depth == 0 && !inStr
    else
      var c := rest[0];
      if c == '\'' then Quiet(c, rest[1..], depth, !inStr)
      else if inStr then Quiet(c, rest[1..], depth, inStr)
      else if c == '(' then Quiet(c, rest[1..], depth + 1, inStr)
      else if c == ')' then depth > 0 && Quiet(c, rest[1..], depth - 1, inStr)
      else !(depth == 0 && StartsAnd(prev, rest)) && Quiet(c, rest[1..], depth, inStr)
  }

  predicate Atom(a: string) {
    Tight(a) && Quiet(' ', a, 0, false)
  }

  function LastOf(prev: char, s: string): char {
    if s == "" then prev else s[|s| - 1]
  }

  lemma StartsAndInside(prev: char, a: string, tail: string)
    requires a != "" && (tail == "" || IsSpace(tail[0])) && StartsAnd(prev, a + tail)
    ensures StartsAnd(prev, a)
  {
    if tail != "" {
      assert (a + tail)[|a|] == tail[0];
    }
  }

  /** The scan crosses an atom without splitting it when a blank or the end follows. */
  lemma {:induction false} CrossAtom(prev: char, a: string, tail: string, depth: int, inStr: bool, cur: string)
    requires (tail == "" || IsSpace(tail[0])) && Quiet(prev, a, depth, inStr)
    ensures Split(prev, a + tail, depth, inStr, cur) == Split(LastOf(prev, a), tail, 0, false, cur + a)
    decreases |a|
  {
    if a == "" {
      assert a + tail == tail && cur + a == cur;
    } else {
      var c := a[0];
      assert (a + tail)[1..] == a[1..] + tail;
      assert cur + [c] + a[1..] == cur + a;
      assert LastOf(c, a[1..]) == LastOf(prev, a);
      if c == '\'' {
        CrossAtom(c, a[1..], tail, depth, !inStr, cur + [c]);
      } else if !inStr && c == '(' {
        CrossAtom(c, a[1..], tail, depth + 1, inStr, cur + [c]);
      } else if !inStr && c == ')' {
        CrossAtom(c, a[1..], tail, depth - 1, inStr, cur + [c]);
      } else {
        if !inStr && depth == 0 && StartsAnd(prev, a + tail) {
          StartsAndInside(prev, a, tail);
        }
        CrossAtom(c, a[1..], tail, depth, inStr, cur + [c]);
      }
    }
  }

  lemma {:induction false} CrossSpace(prev: char, s: string, tail: string, cur: string)
    requires AllSpace(s)
    ensures Split(prev, s + tail, 0, false, cur) == Split(LastOf(prev, s), tail, 0, false, cur + s)
    decreases |s|
  {
    if s == "" {
      assert s + tail == tail && cur + s == cur;
    } else {
      assert (s + tail)[0] == s[0] && (s + tail)[1..] == s[1..] + tail;
      assert cur + [s[0]] + s[1..] == cur + s;
      CrossSpace(s[0], s[1..], tail, cur + [s[0]]);
    }
  }

  /** The blanks around one AND. */
  predicate Gap(g: Pad) {
    g.left != "" && g.right != "" && AllSpace(g.left) && AllSpace(g.right)
  }

  ghost predicate Joinable(atoms: seq<string>, gaps: seq<Pad>) {
    && |atoms| == |gaps| + 1
    && (forall i :: 0 <= i < |atoms| ==> Atom(atoms[i]))
    && (forall i :: 0 <= i < |gaps| ==> Gap(gaps[i]))
  }

  function Join(atoms: seq<string>, gaps: seq<Pad>): string
    requires |atoms| == |gaps| + 1
  {
    if gaps == [] then atoms[0]
    else atoms[0] + (gaps[0].left + ("AND" + (gaps[0].right + Join(atoms[1..], gaps[1..]))))
  }

  lemma JoinableTail(atoms: seq<string>, gaps: seq<Pad>)
    requires Joinable(atoms, gaps) && gaps != []
    ensures Joinable(atoms[1..], gaps[1..])
  {
  }

  function TrimAll(parts: seq<string>): (ts: seq<string>)
    ensures |ts| == |parts| && forall i :: 0 <= i < |parts| ==> ts[i] == Trim(parts[i])
  {
    seq(|parts|, i requires 0 <= i < |parts| => Trim(parts[i]))
  }

  lemma TrimAllCons(first: string, tail: seq<string>)
    ensures TrimAll([first] + tail) == [Trim(first)] + TrimAll(tail)
  {
  }

  lemma QuietAnywhere(prev: char, a: string)
    requires Quiet(' ', a, 0, false) && IsSpace(prev)
    ensures Quiet(prev, a, 0, false)
  {
  }

  /** Cutting the first atom at its AND. */
  lemma CutFirst(prev: char, lead: string, a: string, g: Pad, rest: string)
    requires IsSpace(prev) && AllSpace(lead) && Atom(a) && Gap(g)
    ensures Split(prev, a + (g.left + ("AND" + (g.right + rest))), 0, false, lead)
            == [lead + a + g.left] + Split(LastOf('D', g.right), rest, 0, false, g.right)
    ensures Trim(lead + a + g.left) == a
  {
    var tail := "AND" + (g.right + rest);
    assert (g.left + tail)[0] == g.left[0];
    QuietAnywhere(prev, a);
    CrossAtom(prev, a, g.left + tail, 0, false, lead);
    CrossSpace(LastOf(prev, a), g.left, tail, lead + a);
    assert tail[3] == g.right[0] && tail[3..] == g.right + rest && tail[2] == 'D';
    CrossSpace('D', g.right, rest, "");
    assert "" + g.right == g.right;
    TrimPadded(lead, a, g.left);
  }

  /** From a fresh part on, the scan cuts joined text back into its atoms. */
  lemma {:induction false} SplitJoined(prev: char, lead: string, atoms: seq<string>, gaps: seq<Pad>)
    requires Joinable(atoms, gaps) && IsSpace(prev) && AllSpace(lead)
    ensures TrimAll(Split(prev, Join(atoms, gaps), 0, false, lead)) == atoms
    decreases |atoms|
  {
    var a := atoms[0];
    if gaps == [] {
      QuietAnywhere(prev, a);
      CrossAtom(prev, a, "", 0, false, lead);
      assert a + "" == a && lead + a + "" == lead + a;
      TrimPadded(lead, a, "");
    } else {
      var g := gaps[0];
      JoinableTail(atoms, gaps);
      CutFirst(prev, lead, a, g, Join(atoms[1..], gaps[1..]));
      SplitJoined(LastOf('D', g.right), g.right, atoms[1..], gaps[1..]);
      TrimAllCons(lead + a + g.left, Split(LastOf('D', g.right), Join(atoms[1..], gaps[1..]), 0, false, g.right));
    }
  }

  lemma {:induction false} QuietBalanced(prev: char, a: string, depth: int, inStr: bool)
    requires Quiet(prev, a, depth, inStr)
    ensures Closes(a, depth, inStr)
    decreases |a|
  {
    if a != "" {
      var c := a[0];
      if c == '\'' {
        QuietBalanced(c, a[1..], depth, !inStr);
      } else if !inStr && c == '(' {
        QuietBalanced(c, a[1..], depth + 1, inStr);
      } else if !inStr && c == ')' {
        QuietBalanced(c, a[1..], depth - 1, inStr);
      } else {
        QuietBalanced(c, a[1..], depth, inStr);
      }
    }
  }

  lemma {:induction false} JoinBalanced(atoms: seq<string>, gaps: seq<Pad>)
    requires Joinable(atoms, gaps)
    ensures Balanced(Join(atoms, gaps)) && Tight(Join(atoms, gaps))
    decreases |atoms|
  {
    QuietBalanced(' ', atoms[0], 0, false);
    if gaps != [] {
      var g, rest := gaps[0], Join(atoms[1..], gaps[1..]);
      JoinableTail(atoms, gaps);
      JoinBalanced(atoms[1..], gaps[1..]);
      BlanksBalanced(g.left);
      BlanksBalanced(g.right);
      ClosesThen(g.right, rest, 0, false, 0);
      AndBalanced();
      ClosesThen("AND", g.right + rest, 0, false, 0);
      ClosesThen(g.left, "AND" + (g.right + rest), 0, false, 0);
      ClosesThen(atoms[0], g.left + ("AND" + (g.right + rest)), 0, false, 0);
    }
  }

  lemma AndBalanced()
    ensures Balanced("AND")
  {
    assert "AND"[1..] == "ND" && "ND"[1..] == "D" && "D"[1..] == "";
  }

  /** Text that closes its first parenthesis early does not wrap. */
  lemma {:induction false} EarlyClose(a: string, tail: string, depth: int, inStr: bool)
    requires tail != "" && depth > 0 && Closes(a, depth, inStr)
    ensures !Wraps(a + tail, depth, inStr)
    decreases |a|
  {
    if a != "" {
      assert (a + tail)[1..] == a[1..] + tail;
      if a[0] == '\'' {
        EarlyClose(a[1..], tail, depth, !inStr);
      } else if !inStr && a[0] == '(' {
        EarlyClose(a[1..], tail, depth + 1, inStr);
      } else if !inStr && a[0] == ')' {
        if depth > 1 {
          EarlyClose(a[1..], tail, depth - 1, inStr);
        }
      } else {
        EarlyClose(a[1..], tail, depth, inStr);
      }
    }
  }

  lemma JoinNotStripped(atoms: seq<string>, gaps: seq<Pad>)
    requires Joinable(atoms, gaps) && |atoms| >= 2
    ensures StripOuterParens(Join(atoms, gaps)) == Join(atoms, gaps)
  {
    var t, a := Join(atoms, gaps), atoms[0];
    var tail := t[|a|..];
    JoinBalanced(atoms, gaps);
    TightTrim(t);
    QuietBalanced(' ', a, 0, false);
    assert t == a + tail;
    if t[0] == '(' {
      assert t[1..] == a[1..] + tail;
      EarlyClose(a[1..], tail, 1, false);
    }
  }

  /** Splitting gives back exactly the atoms that were joined with AND, under any
      number of enclosing parentheses and with any blanks around them. */
  lemma SplitUndoesJoin(atoms: seq<string>, gaps: seq<Pad>, pads: seq<Pad>)
    requires Joinable(atoms, gaps) && |atoms| >= 2 && BlankPads(pads)
    ensures TrimAll(Conjuncts(Enclose(Join(atoms, gaps), pads))) == atoms
  {
    JoinBalanced(atoms, gaps);
    StripEnclosed(Join(atoms, gaps), pads);
    JoinNotStripped(atoms, gaps);
    SplitJoined(' ', "", atoms, gaps);
  }

  /** A single atom comes back with its own enclosing parentheses removed. */
  lemma SplitSingle(a: string, pads: seq<Pad>)
    requires BlankPads(pads) && Balanced(a) && Atom(StripOuterParens(a))
    ensures TrimAll(Conjuncts(Enclose(a, pads))) == [StripOuterParens(a)]
  {
    StripEnclosed(a, pads);
    SplitJoined(' ', "", [StripOuterParens(a)], []);
  }
}
