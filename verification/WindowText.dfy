/** internal/findings/rsbackfill.go: splitting a WHERE clause on its top-level ANDs
    without tearing BETWEEN apart. The function scans what is left of the text; the
    method is the source's index loop. */
module WindowText {
  import opened Text

  const BETWEEN: string := " BETWEEN "

  /** " AND " in any case. */
  predicate StartsAnd(rest: string) {
    && |rest| >= 5
    && rest[0] == ' ' && UpperChar(rest[1]) == 'A' && UpperChar(rest[2]) == 'N' && UpperChar(rest[3]) == 'D'
    && rest[4] == ' '
  }

  predicate HasBetween(s: string) {
    Contains(Upper(s), BETWEEN)
  }

  /** The conjuncts still to come: cur is the one being read, and spent says that a
      BETWEEN in it has already taken its own AND. */
  function Scan(rest: string, depth: int, inStr: bool, cur: string, spent: bool): seq<string>
    decreases |rest|
  {
    if rest == "" then [Trim(cur)]
    else
      var c := rest[0];
      if c == '\'' then Scan(rest[1..], depth, !inStr, cur + [c], spent)
      else if inStr then Scan(rest[1..], depth, inStr, cur + [c], spent)
      else if c == '(' then Scan(rest[1..], depth + 1, inStr, cur + [c], spent)
      else if c == ')' then Scan(rest[1..], depth - 1, inStr, cur + [c], spent)
      else if depth == 0 && StartsAnd(rest) then
        if HasBetween(cur) && !spent then Scan(rest[5..], depth, inStr, cur + rest[..5], true)
        else [Trim(cur)] + Scan(rest[5..], depth, inStr, "", false)
      else Scan(rest[1..], depth, inStr, cur + [c], spent)
  }

  /** splitConjuncts. */
  function Split(cond: string): seq<string> {
    Scan(cond, 0, false, "", false)
  }

  method SplitConjuncts(cond: string) returns (out: seq<string>)
    ensures out == Split(cond)
  {
    out := [];
    var depth, start, inStr := 0, 0, false;
    var betweenClosed: set<nat> := {};
    var i := 0;
    while i < |cond|
      invariant 0 <= start <= i <= |cond|
      invariant forall k :: k in betweenClosed ==> k <= start
      invariant out + Scan(cond[i..], depth, inStr, cond[start..i], start in betweenClosed) == Split(cond)
    {
      OneMore(cond, start, i);
      if cond[i] == '\'' {
        inStr := !inStr;
      } else if inStr {
      } else if cond[i] == '(' {
        depth := depth + 1;
      } else if cond[i] == ')' {
        depth := depth - 1;
      } else if depth == 0 && StartsAnd(cond[i..]) {
        FiveMore(cond, start, i);
        if HasBetween(cond[start..i]) && start !in betweenClosed {
          betweenClosed := betweenClosed + {start};
          i := i + 4;
        } else {
          out := out + [Trim(cond[start..i])];
          i := i + 4;
          start := i + 1;
        }
      }
      i := i + 1;
    }
    assert cond[i..] == "" && cond[start..] == cond[start..i];
    out := out + [Trim(cond[start..])];
  }

  lemma OneMore(cond: string, start: nat, i: nat)
    requires start <= i < |cond|
    ensures cond[i..][0] == cond[i] && cond[i..][1..] == cond[i + 1..]
    ensures cond[start..i] + [cond[i]] == cond[start..i + 1]
  {
  }

  lemma FiveMore(cond: string, start: nat, i: nat)
    requires start <= i && i + 5 <= |cond|
    ensures cond[i..][5..] == cond[i + 5..] && cond[start..i] + cond[i..][..5] == cond[start..i + 5]
    ensures cond[i + 5..i + 5] == ""
  {
  }

  // ----- text the scan passes over -----

  /** From this state on, parentheses and string literals close and no AND stands at
      the top level, even with a blank after the text. */
  predicate Passes(rest: string, depth: int, inStr: bool) {
    if rest == "" then depth == 0 && !inStr
    else if rest[0] == '\'' then Passes(rest[1..], depth, !inStr)
    else if inStr then Passes(rest[1..], depth, inStr)
    else if rest[0] == '(' then Passes(rest[1..], depth + 1, inStr)
    else if rest[0] == ')' then Passes(rest[1..], depth - 1, inStr)
    else !(depth == 0 && StartsAnd(rest + " ")) && Passes(rest[1..], depth, inStr)
  }

  /** Text without a top-level AND. */
  predicate Quiet(s: string) {
    Passes(s, 0, false)
  }

  lemma {:induction false} ScanPasses(x: string, y: string, depth: int, inStr: bool, cur: string, spent: bool)
    requires Passes(x, depth, inStr) && (y == "" || y[0] == ' ')
    ensures Scan(x + y, depth, inStr, cur, spent) == Scan(y, 0, false, cur + x, spent)
    decreases |x|
  {
    if x == "" {
      assert x + y == y && cur + x == cur;
    } else {
      var c := x[0];
      assert (x + y)[0] == c && (x + y)[1..] == x[1..] + y;
      assert cur + [c] + x[1..] == cur + x;
      if c == '\'' {
        ScanPasses(x[1..], y, depth, !inStr, cur + [c], spent);
      } else if !inStr && c == '(' {
        ScanPasses(x[1..], y, depth + 1, inStr, cur + [c], spent);
      } else if !inStr && c == ')' {
        ScanPasses(x[1..], y, depth - 1, inStr, cur + [c], spent);
      } else {
        if !inStr && depth == 0 {
          StartsAndWithin(x, y);
        }
        ScanPasses(x[1..], y, depth, inStr, cur + [c], spent);
      }
    }
  }

  /** Text without a top-level AND is one conjunct. */
  lemma QuietSplit(x: string)
    requires Quiet(x)
    ensures Split(x) == [Trim(x)]
  {
    assert x + "" == x && "" + x == x;
    ScanPasses(x, "", 0, false, "", false);
  }

  /** An AND that starts in x cannot use more than one blank of what follows. */
  lemma StartsAndWithin(x: string, y: string)
    requires x != "" && !StartsAnd(x + " ") && (y == "" || y[0] == ' ')
    ensures !StartsAnd(x + y)
  {
    var s, t := x + y, x + " ";
    assert t[|x|] == ' ' && (y == "" || s[|x|] == ' ');
    assert forall k :: 0 <= k < |x| ==> s[k] == x[k] && t[k] == x[k];
  }

  lemma ScanAnd(y: string, cur: string, spent: bool)
    ensures Scan(" AND " + y, 0, false, cur, spent)
            == if HasBetween(cur) && !spent then Scan(y, 0, false, cur + " AND ", true)
               else [Trim(cur)] + Scan(y, 0, false, "", false)
  {
    var rest := " AND " + y;
    assert rest[0] == ' ' && rest[1] == 'A' && rest[2] == 'N' && rest[3] == 'D' && rest[4] == ' ';
    assert rest[..5] == " AND " && rest[5..] == y;
  }

  // ----- the splitter undoes joining -----

  /** A conjunct as SQL has it: one without an AND of its own, or a BETWEEN with its AND. */
  datatype Clause = Plain(text: string) | Between(low: string, high: string)

  function Render(c: Clause): string {
    match c
    case Plain(text) => text
    case Between(low, high) => low + " AND " + high
  }

  ghost predicate Proper(c: Clause) {
    match c
    case Plain(text) => Quiet(text) && !HasBetween(text)
    case Between(low, high) => Quiet(low) && HasBetween(low) && Quiet(high)
  }

  function Join(cs: seq<Clause>): string
    requires cs != []
  {
    if |cs| == 1 then Render(cs[0]) else Render(cs[0]) + (" AND " + Join(cs[1..]))
  }

  function Parts(cs: seq<Clause>): (r: seq<string>) {
    if cs == [] then [] else [Trim(Render(cs[0]))] + Parts(cs[1..])
  }

  /** Scanning a proper clause leaves a state in which the next AND splits. */
  lemma ScanClause(c: Clause, y: string)
    requires Proper(c) && (y == "" || y[0] == ' ')
    ensures Scan(Render(c) + y, 0, false, "", false) == Scan(y, 0, false, Render(c), c.Between?)
  {
    match c
    case Plain(text) =>
      assert "" + text == text;
      ScanPasses(text, y, 0, false, "", false);
    case Between(low, high) =>
      ScanBetween(low, high, y);
  }

  lemma ScanBetween(low: string, high: string, y: string)
    requires Quiet(low) && HasBetween(low) && Quiet(high) && (y == "" || y[0] == ' ')
    ensures Scan(low + " AND " + high + y, 0, false, "", false) == Scan(y, 0, false, low + " AND " + high, true)
  {
    BetweenText(low, high, y);
    ScanPasses(low, " AND " + (high + y), 0, false, "", false);
    ScanAnd(high + y, low, false);
    ScanPasses(high, y, 0, false, low + " AND ", true);
  }

  lemma BetweenText(low: string, high: string, y: string)
    ensures low + " AND " + high + y == low + (" AND " + (high + y)) && "" + low == low
  {
  }

  /** Splitting the text that joins clauses with AND gives back exactly those clauses,
      BETWEEN or not, up to surrounding blanks. */
  lemma {:induction false} SplitUndoesJoin(cs: seq<Clause>)
    requires cs != [] && forall c :: c in cs ==> Proper(c)
    ensures Split(Join(cs)) == Parts(cs)
  {
    var c := cs[0];
    if |cs| == 1 {
      assert cs[1..] == [] && Render(c) + "" == Render(c);
      ScanClause(c, "");
    } else {
      var y := Join(cs[1..]);
      ScanClause(c, " AND " + y);
      ScanAnd(y, Render(c), c.Between?);
      SplitUndoesJoin(cs[1..]);
    }
  }

  // ----- conjuncts that hide a BETWEEN -----

  function JoinTexts(xs: seq<string>): string
    requires xs != []
  {
    if |xs| == 1 then xs[0] else xs[0] + (" AND " + JoinTexts(xs[1..]))
  }

  function Trimmed(xs: seq<string>): (r: seq<string>)
    ensures |r| == |xs|
  {
    if xs == [] then [] else [Trim(xs[0])] + Trimmed(xs[1..])
  }

  /** A conjunct with a BETWEEN takes the next one with it, and then the AND after that splits. */
  function Swallowed(xs: seq<string>): (r: seq<string>)
    ensures |r| <= |xs|
  {
    if |xs| <= 1 then Trimmed(xs)
    else if HasBetween(xs[0]) then [Trim(xs[0] + " AND " + xs[1])] + Swallowed(xs[2..])
    else [Trim(xs[0])] + Swallowed(xs[1..])
  }

  /** The text of conjuncts without an AND of their own splits into what is swallowed of them. */
  lemma {:induction false} SplitSwallows(xs: seq<string>)
    requires xs != [] && forall x :: x in xs ==> Quiet(x)
    ensures Split(JoinTexts(xs)) == Swallowed(xs)
    decreases |xs|
  {
    var x := xs[0];
    if |xs| == 1 {
      QuietSplit(x);
      assert xs[1..] == [] && Trimmed([]) == [];
    } else if HasBetween(x) {
      SplitPair(x, xs[1], if |xs| == 2 then "" else " AND " + JoinTexts(xs[2..]));
      assert xs[1..][1..] == xs[2..];
      if |xs| == 2 {
        assert xs[1] + "" == xs[1] && xs[2..] == [];
      } else {
        ScanAnd(JoinTexts(xs[2..]), x + " AND " + xs[1], true);
        SplitSwallows(xs[2..]);
      }
    } else {
      assert "" + x == x;
      ScanPasses(x, " AND " + JoinTexts(xs[1..]), 0, false, "", false);
      ScanAnd(JoinTexts(xs[1..]), x, false);
      SplitSwallows(xs[1..]);
    }
  }

  lemma SplitPair(x: string, y: string, rest: string)
    requires Quiet(x) && HasBetween(x) && Quiet(y) && (rest == "" || rest[0] == ' ')
    ensures Split(x + (" AND " + (y + rest))) == Scan(rest, 0, false, x + " AND " + y, true)
  {
    assert "" + x == x;
    ScanPasses(x, " AND " + (y + rest), 0, false, "", false);
    ScanAnd(y + rest, x, false);
    ScanPasses(y, rest, 0, false, x + " AND ", true);
  }

  /** Conjuncts without an AND of their own come apart exactly when none but the last holds a
      BETWEEN: one inside parentheses or a string literal swallows the conjunct after it. */
  lemma TextsSplitIff(xs: seq<string>)
    requires xs != [] && forall x :: x in xs ==> Quiet(x)
    ensures Split(JoinTexts(xs)) == Trimmed(xs) <==> forall i :: 0 <= i < |xs| - 1 ==> !HasBetween(xs[i])
  {
    SplitSwallows(xs);
    SwallowedIff(xs);
  }

  lemma {:induction false} SwallowedIff(xs: seq<string>)
    ensures Swallowed(xs) == Trimmed(xs) <==> forall i :: 0 <= i < |xs| - 1 ==> !HasBetween(xs[i])
  {
    if |xs| > 1 {
      if HasBetween(xs[0]) {
        assert |Swallowed(xs)| < |xs|;
      } else {
        SwallowedIff(xs[1..]);
        assert forall i :: 1 <= i < |xs| - 1 ==> xs[i] == xs[1..][i - 1];
        assert forall i :: 0 <= i < |xs| - 2 ==> xs[1..][i] == xs[i + 1];
        SameHead(Trim(xs[0]), Swallowed(xs[1..]), Trimmed(xs[1..]));
      }
    }
  }

  lemma SameHead(x: string, s: seq<string>, t: seq<string>)
    ensures [x] + s == [x] + t <==> s == t
  {
    assert ([x] + s)[1..] == s && ([x] + t)[1..] == t;
  }
}
