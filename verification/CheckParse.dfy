/** The two shapes parseCheckAtom reads, written as PostgreSQL renders them, are read
    back exactly: a comparison with a number, and membership in an array of literals. */
module CheckParse {
  import opened CheckDomains
  import opened CheckText
  import T = Text
  import opened Wrappers

  /** Text with none of the characters an operator is made of. */
  ghost predicate NoOperator(s: string) {
    forall i :: 0 <= i < |s| ==> s[i] != '=' && s[i] != '<' && s[i] != '>'
  }

  /** A rendering of a column, possibly parenthesized or cast. */
  ghost predicate ColumnText(s: string, col: string) {
    T.Tight(s) && Balanced(s) && NoOperator(s) && PlainColumn(s) == Some(col)
  }

  ghost predicate LiteralText(s: string, k: real, pf: ParseFloat) {
    T.Tight(s) && NoOperator(s) && NumericLiteral(s, pf) == Some(k)
  }

  // ----- nothing is stripped -----

  lemma ColumnNotStripped(c: string, tail: string)
    requires T.Tight(c) && Balanced(c) && T.Tight(tail)
    ensures StripOuterParens(c + (" " + tail)) == c + (" " + tail)
  {
    var s := c + (" " + tail);
    T.TightTrim(s);
    if s[0] == '(' {
      assert s[1..] == c[1..] + (" " + tail);
      EarlyClose(c[1..], " " + tail, 1, false);
    }
  }

  lemma ColumnWithSpace(c: string)
    requires T.Tight(c)
    ensures PlainColumn(c + " ") == PlainColumn(c)
  {
    T.TrimPadded("", c, " ");
    T.TightTrim(c);
    assert "" + c + " " == c + " ";
    assert T.Trim(c + " ") == T.Trim(c);
  }

  lemma LiteralWithSpace(l: string)
    requires T.Tight(l)
    ensures T.Trim(" " + l) == l
  {
    T.TrimPadded(" ", l, "");
    assert " " + l + "" == " " + l;
  }

  // ----- looking for "= ANY" -----

  /** Where the text starts with something other than blanks and "=", no "= ANY" starts. */
  lemma {:induction false} DropSpaceHead(x: string, y: string)
    requires '=' !in x && y != "" && y[0] != '=' && !IsSpace(y[0])
    ensures DropSpace(x + y) != "" && DropSpace(x + y)[0] != '='
    decreases |x|
  {
    if x == "" {
      assert x + y == y;
    } else {
      assert (x + y)[1..] == x[1..] + y;
      if IsSpace(x[0]) {
        DropSpaceHead(x[1..], y);
      }
    }
  }

  lemma {:induction false} NoEqualsNoAny(prev: char, s: string)
    requires '=' !in s
    ensures IndexEqAny(prev, s).None?
    decreases |s|
  {
    if s != "" {
      DropSpaceWithin(s);
      NoEqualsNoAny(s[0], s[1..]);
    }
  }

  lemma {:induction false} DropSpaceWithin(s: string)
    ensures forall c :: c in DropSpace(s) ==> c in s
    decreases |s|
  {
    if s != "" && IsSpace(s[0]) {
      DropSpaceWithin(s[1..]);
    }
  }

  /** The "=" of ">=" and "<=" is no "= ANY". */
  lemma {:induction false} ComparisonHasNoAny(prev: char, x: string, op: char, y: string)
    requires '=' !in x && '=' !in y && !IsSpace(op) && op != '='
    ensures IndexEqAny(prev, x + ([op, '='] + y)).None?
    decreases |x|
  {
    var s := x + ([op, '='] + y);
    DropSpaceHead(x, [op, '='] + y);
    if x == "" {
      assert s == [op, '='] + y && s[1..] == ['='] + y && s[1..][1..] == y;
      NoEqualsNoAny('=', y);
    } else {
      assert s[1..] == x[1..] + ([op, '='] + y);
      ComparisonHasNoAny(x[0], x[1..], op, y);
    }
  }

  /** The "= ANY" after a column is found where it stands. */
  lemma {:induction false} AnyFound(prev: char, x: string, r: string)
    requires '=' !in x && (x == "" ==> !IsSpace(prev)) && (x != "" ==> !IsSpace(x[|x| - 1]))
    requires |r| >= 5 && r[0] == '=' && r[1] == ' ' && r[2] == 'A' && r[3] == 'N' && r[4] == 'Y'
    ensures IndexEqAny(prev, x + (" " + r)) == Some(|x| + 1)
    decreases |x|
  {
    var s := x + (" " + r);
    if x == "" {
      assert s == " " + r && s[1..] == r;
      assert DropSpace(r) == r;
      var t := r[1..];
      assert DropSpace(t) == DropSpace(t[1..]) == t[1..];
      assert StartsEqAny(' ', r);
    } else {
      var last := |x| - 1;
      assert s == x[..last] + ([x[last]] + (" " + r));
      assert x[last] in x;
      assert forall c :: c in x[..last] ==> c in x;
      DropSpaceHead(x[..last], [x[last]] + (" " + r));
      assert s[1..] == x[1..] + (" " + r);
      AnyFound(x[0], x[1..], r);
    }
  }

  // ----- comparisons -----

  datatype Operator = GE | LE | GT | LT

  function OperatorText(op: Operator): string {
    match op
    case GE => ">="
    case LE => "<="
    case GT => ">"
    case LT => "<"
  }

  function CheckFor(op: Operator, k: real): Check {
    match op
    case GE => AtLeast(k)
    case LE => AtMost(k)
    case GT => Above(k)
    case LT => Below(k)
  }

  function ComparisonText(c: string, op: Operator, l: string): string {
    c + (" " + (OperatorText(op) + (" " + l)))
  }

  lemma ComparisonHasNoEqAny(c: string, op: Operator, l: string)
    requires NoOperator(c) && NoOperator(l)
    ensures IndexEqAny(' ', ComparisonText(c, op, l)).None?
  {
    var s := ComparisonText(c, op, l);
    if op == GE || op == LE {
      var o := OperatorText(op)[0];
      assert s == (c + " ") + ([o, '='] + (" " + l));
      ComparisonHasNoAny(' ', c + " ", o, " " + l);
    } else {
      NoEqualsNoAny(' ', s);
    }
  }

  /** Where the operator stands, and that no other operator character stands anywhere. */
  lemma OperatorStands(c: string, op: Operator, l: string)
    requires NoOperator(c) && NoOperator(l)
    ensures var s, o, p := ComparisonText(c, op, l), OperatorText(op), |c| + 1;
            && p + |o| + 1 + |l| == |s|
            && T.At(s, p, o) && s[p + |o|] == ' ' && s[..p] == c + " " && s[p + |o|..] == " " + l
            && forall i :: 0 <= i < |s| && !(p <= i < p + |o|) ==> s[i] != '=' && s[i] != '<' && s[i] != '>'
  {
    var s, o, p := ComparisonText(c, op, l), OperatorText(op), |c| + 1;
    assert s == (c + " ") + (o + (" " + l));
    assert s[p..] == o + (" " + l);
    assert s[p..p + |o|] == o;
    assert s[p + |o|..] == " " + l;
    forall i | 0 <= i < |s| && !(p <= i < p + |o|)
      ensures s[i] != '=' && s[i] != '<' && s[i] != '>'
    {
      if i >= p + |o| {
        assert s[i] == (" " + l)[i - p - |o|];
      }
    }
  }

  lemma OperatorIndex(c: string, op: Operator, l: string)
    requires NoOperator(c) && NoOperator(l)
    ensures T.Index(ComparisonText(c, op, l), OperatorText(op)) == Some(|c| + 1)
  {
    var s := ComparisonText(c, op, l);
    OperatorStands(c, op, l);
    forall j | 0 <= j < |c| + 1
      ensures !T.At(s, j, OperatorText(op))
    {
      if T.At(s, j, OperatorText(op)) {
        T.AtChar(s, j, OperatorText(op), 0);
      }
    }
    T.IndexIs(s, OperatorText(op), |c| + 1);
  }

  /** The operators tried earlier in the list are not in the text. */
  lemma OtherOperatorAbsent(c: string, op: Operator, l: string, other: string)
    requires NoOperator(c) && NoOperator(l)
    requires (op == LE && other == ">=") || (op == GT && other in [">=", "<=", "<>"])
             || (op == LT && other in [">=", "<=", "<>", ">"])
    ensures T.Index(ComparisonText(c, op, l), other).None?
  {
    var s := ComparisonText(c, op, l);
    OperatorStands(c, op, l);
    forall j | 0 <= j
      ensures !T.At(s, j, other)
    {
      if T.At(s, j, other) {
        T.AtChar(s, j, other, 0);
        T.AtChar(s, j, other, |other| - 1);
      }
    }
  }

  /** What is read on the two sides of the operator. */
  lemma OperatorSides(c: string, op: Operator, l: string)
    requires T.Tight(c) && T.Tight(l) && NoOperator(c) && NoOperator(l)
    ensures var s, o, p := ComparisonText(c, op, l), OperatorText(op), |c| + 1;
            p + |o| <= |s| && PlainColumn(s[..p]) == PlainColumn(c) && T.Trim(s[p + |o|..]) == l
  {
    OperatorStands(c, op, l);
    ColumnWithSpace(c);
    LiteralWithSpace(l);
  }

  lemma OperatorDecides(c: string, op: Operator, l: string, col: string, k: real, ops: seq<string>, pf: ParseFloat)
    requires ColumnText(c, col) && LiteralText(l, k, pf)
    requires ops != [] && ops[0] == OperatorText(op)
    ensures ParseComparison(ComparisonText(c, op, l), ops, pf) == Some(Parsed(col, CheckFor(op, k)))
  {
    OperatorSides(c, op, l);
    OperatorIndex(c, op, l);
    DecideAt(ComparisonText(c, op, l), ops, |c| + 1, col, k, pf);
  }

  lemma DecideAt(s: string, ops: seq<string>, p: nat, col: string, k: real, pf: ParseFloat)
    requires ops != [] && T.Index(s, ops[0]) == Some(p) && CheckOf(ops[0], k).Some?
    requires PlainColumn(s[..p]) == Some(col) && NumericLiteral(T.Trim(s[p + |ops[0]|..]), pf) == Some(k)
    ensures ParseComparison(s, ops, pf) == Some(Parsed(col, CheckOf(ops[0], k).value))
  {
  }

  /** A comparison written "column op literal" is read as that comparison. */
  lemma ComparisonReadBack(c: string, op: Operator, l: string, col: string, k: real, pf: ParseFloat)
    requires ColumnText(c, col) && LiteralText(l, k, pf)
    ensures ParseCheckAtom(ComparisonText(c, op, l), pf) == Some(Parsed(col, CheckFor(op, k)))
  {
    var s := ComparisonText(c, op, l);
    ColumnNotStripped(c, OperatorText(op) + (" " + l));
    ComparisonHasNoEqAny(c, op, l);
    var le, ne, gt, lt := OPERATORS[1..], OPERATORS[2..], OPERATORS[3..], OPERATORS[4..];
    match op
    case GE =>
      OperatorDecides(c, op, l, col, k, OPERATORS, pf);
    case LE =>
      OtherOperatorAbsent(c, op, l, ">=");
      OperatorDecides(c, op, l, col, k, le, pf);
    case GT =>
      OtherOperatorAbsent(c, op, l, ">=");
      OtherOperatorAbsent(c, op, l, "<=");
      OtherOperatorAbsent(c, op, l, "<>");
      OperatorDecides(c, op, l, col, k, gt, pf);
      SkipThree(s, pf);
    case LT =>
      OtherOperatorAbsent(c, op, l, ">=");
      OtherOperatorAbsent(c, op, l, "<=");
      OtherOperatorAbsent(c, op, l, "<>");
      OtherOperatorAbsent(c, op, l, ">");
      OperatorDecides(c, op, l, col, k, lt, pf);
      SkipThree(s, pf);
      assert gt[1..] == lt;
  }

  lemma SkipThree(s: string, pf: ParseFloat)
    requires T.Index(s, ">=").None? && T.Index(s, "<=").None? && T.Index(s, "<>").None?
    ensures ParseComparison(s, OPERATORS, pf) == ParseComparison(s, OPERATORS[3..], pf)
  {
    SkipOne(s, OPERATORS, pf);
    SkipOne(s, OPERATORS[1..], pf);
    SkipOne(s, OPERATORS[2..], pf);
    assert OPERATORS[1..][1..] == OPERATORS[2..] && OPERATORS[2..][1..] == OPERATORS[3..];
  }

  lemma SkipOne(s: string, ops: seq<string>, pf: ParseFloat)
    requires ops != [] && T.Index(s, ops[0]).None?
    ensures ParseComparison(s, ops, pf) == ParseComparison(s, ops[1..], pf)
  {
  }

  // ----- arrays of literals -----

  /** A string with its quotes doubled. */
  function Escape(v: string): string {
    if v == "" then "" else (if v[0] == '\'' then "''" else [v[0]]) + Escape(v[1..])
  }

  function Quoted(v: string): string {
    "'" + (Escape(v) + "'::text")
  }

  function Elements(vs: seq<string>): string
    requires vs != []
  {
    if |vs| == 1 then Quoted(vs[0]) else Quoted(vs[0]) + (", " + Elements(vs[1..]))
  }

  function Prepend(v: string, later: Option<seq<string>>): Option<seq<string>> {
    if later.Some? then Some([v] + later.value) else None
  }

  lemma {:induction false} EscapedRead(v: string, tail: string, cur: string)
    requires tail == "" || tail[0] != '\''
    ensures Literals(Escape(v) + ("'" + tail), true, cur) == Prepend(cur + v, Literals(tail, false, ""))
    decreases |v|
  {
    var s := Escape(v) + ("'" + tail);
    if v == "" {
      assert s == "'" + tail && s[1..] == tail && cur + v == cur;
    } else {
      assert cur + [v[0]] + v[1..] == cur + v;
      EscapedRead(v[1..], tail, cur + [v[0]]);
      if v[0] == '\'' {
        assert s[0] == '\'' && s[1] == '\'' && s[2..] == Escape(v[1..]) + ("'" + tail);
        assert cur + "'" == cur + [v[0]];
      } else {
        assert s[0] == v[0] && s[1..] == Escape(v[1..]) + ("'" + tail);
      }
    }
  }

  /** Outside a literal, characters other than quotes are skipped. */
  lemma {:induction false} SkippedOutside(x: string, tail: string)
    requires '\'' !in x
    ensures Literals(x + tail, false, "") == Literals(tail, false, "")
    decreases |x|
  {
    if x == "" {
      assert x + tail == tail;
    } else {
      assert (x + tail)[1..] == x[1..] + tail;
      SkippedOutside(x[1..], tail);
    }
  }

  lemma QuotedText(v: string, tail: string)
    ensures var s := Quoted(v) + tail; s != "" && s[0] == '\'' && s[1..] == Escape(v) + ("'" + ("::text" + tail))
  {
  }

  lemma QuotedRead(v: string, tail: string)
    requires tail == "" || tail[0] != '\''
    ensures Literals(Quoted(v) + tail, false, "") == Prepend(v, Literals(tail, false, ""))
  {
    QuotedText(v, tail);
    EscapedRead(v, "::text" + tail, "");
    assert "" + v == v;
    SkippedOutside("::text", tail);
  }

  lemma {:induction false} ElementsRead(vs: seq<string>)
    requires vs != []
    ensures Literals(Elements(vs), false, "") == Some(vs)
    decreases |vs|
  {
    if |vs| == 1 {
      QuotedRead(vs[0], "");
      assert Quoted(vs[0]) + "" == Quoted(vs[0]);
      assert [vs[0]] + [] == vs;
    } else {
      var rest := Elements(vs[1..]);
      ElementsRead(vs[1..]);
      QuotedRead(vs[0], ", " + rest);
      SkippedOutside(", ", rest);
      assert vs == [vs[0]] + vs[1..];
    }
  }

  function ArrayText(vs: seq<string>): string
    requires vs != []
  {
    "= ANY (ARRAY[" + (Elements(vs) + "])")
  }

  lemma ArrayTextRead(vs: seq<string>)
    requires vs != []
    ensures ArrayLiterals(ArrayText(vs)) == Some(vs)
  {
    var head, e := "= ANY (ARRAY[", Elements(vs);
    var s := ArrayText(vs);
    assert |head| == 13 && head[12] == '[';
    assert s[12..13] == "[";
    forall j | 0 <= j < 12
      ensures !T.At(s, j, "[")
    {
      assert s[j] == head[j];
      if T.At(s, j, "[") {
        T.AtChar(s, j, "[", 0);
      }
    }
    T.IndexIs(s, "[", 12);
    var n := |s|;
    assert s[n - 1] == ')' && s[..n - 1][n - 2] == ']';
    assert T.LastIndexOf(s, ']') == Some(n - 2);
    assert s[13..n - 2] == e;
    ElementsRead(vs);
  }

  /** Membership written "column = ANY (ARRAY['a'::text, ...])" is read as exactly those
      values, whatever quotes, brackets or commas the values contain. */
  lemma MembershipReadBack(c: string, vs: seq<string>, col: string, pf: ParseFloat)
    requires ColumnText(c, col) && vs != []
    ensures ParseCheckAtom(c + (" " + ArrayText(vs)), pf) == Some(Parsed(col, In(vs)))
  {
    ArrayTextShape(vs);
    ArrayTextRead(vs);
    MembershipOf(c, ArrayText(vs), vs, col, pf);
  }

  /** How an array test begins, and that it is not surrounded by blanks. */
  ghost predicate AnyText(r: string) {
    |r| >= 5 && r[0] == '=' && r[1] == ' ' && r[2] == 'A' && r[3] == 'N' && r[4] == 'Y' && T.Tight(r)
  }

  lemma ArrayTextShape(vs: seq<string>)
    requires vs != []
    ensures AnyText(ArrayText(vs))
  {
  }

  lemma MembershipOf(c: string, r: string, vs: seq<string>, col: string, pf: ParseFloat)
    requires ColumnText(c, col) && AnyText(r) && ArrayLiterals(r) == Some(vs) && vs != []
    ensures ParseCheckAtom(c + (" " + r), pf) == Some(Parsed(col, In(vs)))
  {
    var s := c + (" " + r);
    ColumnNotStripped(c, r);
    AnyFound(' ', c, r);
    assert s[..|c| + 1] == c + " " && s[|c| + 1..] == r;
    ColumnWithSpace(c);
    MembershipAt(s, |c| + 1, vs, col, pf);
  }

  lemma MembershipAt(s: string, p: nat, vs: seq<string>, col: string, pf: ParseFloat)
    requires StripOuterParens(s) == s && IndexEqAny(' ', s) == Some(p) && vs != []
    requires PlainColumn(s[..p]) == Some(col) && ArrayLiterals(s[p..]) == Some(vs)
    ensures ParseCheckAtom(s, pf) == Some(Parsed(col, In(vs)))
  {
  }

  // ----- a whole CHECK body -----

  lemma TrimmedPartParsesAlike(part: string, pf: ParseFloat)
    ensures ParseCheckAtom(part, pf) == ParseCheckAtom(T.Trim(part), pf)
  {
    T.TrimTwice(part);
    assert StripOuterParens(part) == StripOuterParens(T.Trim(part));
  }

  /** The part is read as p. */
  ghost predicate ReadAs(part: string, p: Parsed, pf: ParseFloat) {
    Some(p) == ParseCheckAtom(part, pf)
  }

  function Reader(pf: ParseFloat): string -> Option<Parsed> {
    (part: string) => ParseCheckAtom(part, pf)
  }

  /** What a reader makes of the parts, in order. */
  ghost function Gathered(read: string -> Option<Parsed>, parts: seq<string>): seq<Parsed> {
    if parts == [] then []
    else
      var n := |parts| - 1;
      Gathered(read, parts[..n]) + (if read(parts[n]).Some? then [read(parts[n]).value] else [])
  }

  lemma {:induction false} ChecksAreGathered(parts: seq<string>, pf: ParseFloat)
    ensures ChecksIn(parts, pf) == Gathered(Reader(pf), parts)
  {
    if parts != [] {
      ChecksAreGathered(parts[..|parts| - 1], pf);
    }
  }

  lemma {:induction false} AllGathered(read: string -> Option<Parsed>, parts: seq<string>, ps: seq<Parsed>)
    requires |parts| == |ps| && forall i :: 0 <= i < |parts| ==> read(parts[i]) == Some(ps[i])
    ensures Gathered(read, parts) == ps
  {
    if parts != [] {
      var n := |parts| - 1;
      AllGathered(read, parts[..n], ps[..n]);
      assert ps == ps[..n] + [ps[n]];
    }
  }

  lemma PartsParse(parts: seq<string>, ps: seq<Parsed>, pf: ParseFloat)
    requires |parts| == |ps|
    requires forall i :: 0 <= i < |parts| ==> ReadAs(parts[i], ps[i], pf)
    ensures ChecksIn(parts, pf) == ps
  {
    forall i | 0 <= i < |parts|
      ensures Reader(pf)(parts[i]) == Some(ps[i])
    {
      assert ReadAs(parts[i], ps[i], pf);
    }
    ChecksAreGathered(parts, pf);
    AllGathered(Reader(pf), parts, ps);
  }

  /** Readable conditions joined with AND, under any parentheses and blanks, contribute
      exactly their checks, in order. */
  lemma CheckBodyReadBack(atoms: seq<string>, gaps: seq<Pad>, pads: seq<Pad>, ps: seq<Parsed>, pf: ParseFloat)
    requires Joinable(atoms, gaps) && |atoms| >= 2 && BlankPads(pads) && |ps| == |atoms|
    requires forall i :: 0 <= i < |atoms| ==> ReadAs(atoms[i], ps[i], pf)
    ensures ChecksIn(Conjuncts(Enclose(Join(atoms, gaps), pads)), pf) == ps
  {
    var parts := Conjuncts(Enclose(Join(atoms, gaps), pads));
    SplitUndoesJoin(atoms, gaps, pads);
    forall i | 0 <= i < |parts|
      ensures ReadAs(parts[i], ps[i], pf)
    {
      assert TrimAll(parts)[i] == atoms[i];
      TrimmedPartParsesAlike(parts[i], pf);
    }
    PartsParse(parts, ps, pf);
  }
}
