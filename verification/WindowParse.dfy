/** Conjuncts written the usual way are read back exactly, so that a batched statement
    is recognized with the window it names. */
module WindowParse {
  import opened Digits
  import opened Numbers
  import opened Text
  import opened Window
  import opened WindowText
  import opened Wrappers

  predicate NameChar(c: char) {
    'a' <= c <= 'z' || 'A' <= c <= 'Z' || '0' <= c <= '9' || c == '_' || c == '-'
  }

  /** An unquoted name, or a decimal numeral. */
  predicate Word(s: string) {
    s != "" && forall i :: 0 <= i < |s| ==> NameChar(s[i])
  }

  // ----- words -----

  lemma WordIsTight(s: string)
    requires Word(s)
    ensures Tight(s) && Trim(s) == s && TrimChar(s, '"') == s && TrimChar(s, '\'') == s && TrimChar(s, ';') == s
  {
    TightTrim(s);
  }

  lemma {:induction false} NumeralIsWord(n: nat)
    ensures Word(Numeral(n, 10))
    decreases n
  {
    if n >= 10 {
      NumeralIsWord(n / 10);
    }
  }

  lemma DecimalIsWord(n: int)
    ensures Word(Decimal(n))
  {
    NumeralIsWord(if n < 0 then -n else n);
  }

  lemma NoCastInWord(s: string)
    requires Word(s)
    ensures Index(s, "::").None?
  {
    if Index(s, "::").Some? {
      AtChar(s, Index(s, "::").value, "::", 0);
    }
  }

  /** strconv.ParseInt undoes strconv.Itoa, through literalInt. */
  lemma DecimalRead(n: int)
    requires IsInt64(n)
    ensures LiteralInt(Decimal(n)) == Some(n)
  {
    var s := Decimal(n);
    DecimalIsWord(n);
    WordIsTight(s);
    NoCastInWord(s);
    DecimalParsed(n);
  }

  lemma WordIsColumn(s: string)
    requires Word(s)
    ensures NormalizeColumn(s) == Some(s)
  {
    WordIsTight(s);
    assert forall i :: 0 <= i < |s| ==> s[i] != '.';
  }

  lemma TrimmedOnce(s: string, c: char)
    requires s != "" && s[0] != c && s[|s| - 1] != c
    ensures TrimChar([c] + s + [c], c) == s
  {
    var t := [c] + s + [c];
    assert t[1..] == s + [c] && (s + [c])[0] == s[0];
    assert TrimCharLeft(t, c) == TrimCharLeft(s + [c], c) == s + [c];
    assert (s + [c])[..|s|] == s;
  }

  lemma NoCastIn(s: string)
    requires forall i :: 0 <= i < |s| ==> s[i] != ':'
    ensures Index(s, "::").None?
  {
    if Index(s, "::").Some? {
      AtChar(s, Index(s, "::").value, "::", 0);
    }
  }

  lemma CastBehind(s: string, typ: string)
    requires Tight(s) && Tight(typ) && forall i :: 0 <= i < |s| ==> s[i] != ':'
    ensures var t := s + ("::" + typ); Trim(t) == t && Index(t, "::") == Some(|s|) && t[..|s|] == s
  {
    var t := s + ("::" + typ);
    TightTrim(t);
    assert t[|s|..|s| + 2] == "::";
    forall j | 0 <= j < |s|
      ensures !At(t, j, "::")
    {
      assert t[j] == s[j];
      CharIfAt(t, j, "::", 0);
    }
    IndexIs(t, "::", |s|);
  }

  lemma LastDot(q: string, c: string)
    requires forall i :: 0 <= i < |c| ==> c[i] != '.'
    ensures LastIndexOf(c, '.').None?
    ensures LastIndexOf(q + "." + c, '.') == Some(|q|) && (q + "." + c)[|q| + 1..] == c
  {
    var s := q + "." + c;
    assert s[|q|] == '.';
    assert forall k :: |q| < k < |s| ==> s[k] == c[k - |q| - 1];
  }

  lemma LiteralCast(s: string, typ: string, n: int)
    requires Tight(s) && (forall i :: 0 <= i < |s| ==> s[i] != ':') && (typ == "" || Tight(typ))
    requires ParseInt(TrimChar(s, '\'')) == Some(n)
    ensures LiteralInt(if typ == "" then s else s + ("::" + typ)) == Some(n)
  {
    TightTrim(s);
    if typ == "" {
      NoCastIn(s);
    } else {
      CastBehind(s, typ);
    }
  }

  /** A literal is read as its number in quotes or without, and with a cast behind it or without. */
  lemma LiteralWritten(n: int, quoted: bool, typ: string)
    requires IsInt64(n) && (typ == "" || Tight(typ))
    ensures var s := if quoted then Quoted(Decimal(n), '\'') else Decimal(n);
            LiteralInt(if typ == "" then s else s + ("::" + typ)) == Some(n)
  {
    DecimalIsWord(n);
    WordIsTight(Decimal(n));
    DecimalParsed(n);
    if quoted {
      QuotedWord(Decimal(n), '\'');
      LiteralCast(Quoted(Decimal(n), '\''), typ, n);
    } else {
      LiteralCast(Decimal(n), typ, n);
    }
  }

  function Quoted(s: string, c: char): string {
    [c] + s + [c]
  }

  lemma QuotedWord(s: string, c: char)
    requires Word(s) && (c == '"' || c == '\'')
    ensures Tight(Quoted(s, c)) && TrimChar(Quoted(s, c), c) == s
    ensures forall i :: 0 <= i < |Quoted(s, c)| ==> Quoted(s, c)[i] != ':' && Quoted(s, c)[i] != '.'
  {
    TrimmedOnce(s, c);
  }

  lemma ColumnOf(c: string, qualifier: string, name: string)
    requires Tight(c) && (forall i :: 0 <= i < |c| ==> c[i] != '.') && (qualifier == "" || Tight(qualifier))
    requires Word(name) && TrimChar(c, '"') == name
    ensures NormalizeColumn(if qualifier == "" then c else qualifier + "." + c) == Some(name)
  {
    var raw := if qualifier == "" then c else qualifier + "." + c;
    TightTrim(c);
    TightTrim(raw);
    LastDot(qualifier, c);
  }

  /** A column is read by its own name, qualified or not and in double quotes or not. */
  lemma ColumnWritten(name: string, qualifier: string, quoted: bool)
    requires Word(name) && (qualifier == "" || Tight(qualifier))
    ensures var c := if quoted then Quoted(name, '"') else name;
            NormalizeColumn(if qualifier == "" then c else qualifier + "." + c) == Some(name)
  {
    WordIsTight(name);
    QuotedWord(name, '"');
    ColumnOf(if quoted then Quoted(name, '"') else name, qualifier, name);
  }

  /** No blank of a word starts a keyword: what follows it does. */
  lemma KeywordAfterWord(w: string, k: string, rest: string)
    requires Word(w) && k != "" && k[0] == ' ' && Upper(k) == k
    ensures Index(Upper(w + (k + rest)), k) == Some(|w|)
  {
    var s := w + (k + rest);
    var u := Upper(s);
    assert s[|w|..|w| + |k|] == k;
    forall i | 0 <= i < |k|
      ensures u[|w|..|w| + |k|][i] == k[i]
    {
      assert s[|w|..|w| + |k|][i] == s[|w| + i] && Upper(k)[i] == k[i];
    }
    assert u[|w|..|w| + |k|] == k;
    forall j | 0 <= j < |w|
      ensures !At(u, j, k)
    {
      assert NameChar(w[j]);
      if At(u, j, k) {
        AtChar(u, j, k, 0);
      }
    }
    IndexIs(u, k, |w|);
  }

  // ----- BETWEEN -----

  function BetweenText(col: string, lo: string, hi: string): string {
    col + (BETWEEN + (lo + (" AND " + hi)))
  }

  /** A BETWEEN over plain words is read as that window. */
  lemma BetweenReadBack(columns: set<string>, col: string, lo: string, hi: string)
    requires Word(col) && Word(lo) && Word(hi) && col in columns
    ensures ReadConjunct(columns, BetweenText(col, lo, hi)) == Inside(col, lo, hi)
  {
    var rest := lo + (" AND " + hi);
    var conj := BetweenText(col, lo, hi);
    KeywordAfterWord(col, BETWEEN, rest);
    assert conj[..|col|] == col && conj[|col| + 9..] == rest;
    BetweenFound(columns, conj, |col|);
    InsideRead(columns, rest, col, lo, hi);
  }

  lemma BetweenFound(columns: set<string>, conj: string, j: nat)
    requires Index(Upper(conj), BETWEEN) == Some(j) && j > 0
    ensures j + 9 <= |conj| && ReadConjunct(columns, conj) == ReadBetween(columns, conj[..j], conj[j + 9..])
  {
  }

  lemma InsideRead(columns: set<string>, rest: string, col: string, lo: string, hi: string)
    requires Word(col) && Word(lo) && Word(hi) && col in columns && rest == lo + (" AND " + hi)
    ensures ReadBetween(columns, col, rest) == Inside(col, lo, hi)
  {
    WordIsColumn(col);
    AndBetween(lo, hi);
    InsideReadAt(columns, rest, |lo|, col, lo, hi);
  }

  lemma AndBetween(lo: string, hi: string)
    requires Word(lo) && Word(hi)
    ensures var rest := lo + (" AND " + hi);
            && Index(Upper(rest), " AND ") == Some(|lo|) && |lo| + 5 <= |rest|
            && Trim(rest[..|lo|]) == lo && Trim(rest[|lo| + 5..]) == hi
  {
    var rest := lo + (" AND " + hi);
    KeywordAfterWord(lo, " AND ", hi);
    assert rest[..|lo|] == lo && rest[|lo| + 5..] == hi;
    WordTrimmed(lo);
    WordTrimmed(hi);
  }

  lemma InsideReadAt(columns: set<string>, rest: string, k: nat, col: string, lo: string, hi: string)
    requires col in columns && NormalizeColumn(col) == Some(col) && Index(Upper(rest), " AND ") == Some(k)
    requires k + 5 <= |rest| && Trim(rest[..k]) == lo && Trim(rest[k + 5..]) == hi
    ensures ReadBetween(columns, col, rest) == Inside(col, lo, hi)
  {
  }

  lemma WordTrimmed(w: string)
    requires Word(w)
    ensures Trim(w) == w
  {
    WordIsTight(w);
  }

  // ----- comparisons -----

  predicate IsOperator(op: string) {
    op == ">=" || op == "<=" || op == ">" || op == "<"
  }

  function ComparisonText(col: string, op: string, val: string): string {
    col + (" " + (op + (" " + val)))
  }

  /** Where the operator characters stand. */
  lemma OnlyOperator(col: string, op: string, val: string, i: nat)
    requires Word(col) && Word(val) && IsOperator(op)
    requires i < |ComparisonText(col, op, val)|
    ensures var c := ComparisonText(col, op, val)[i];
            c == '<' || c == '>' || c == '=' <==> |col| + 1 <= i < |col| + 1 + |op|
  {
    var s := ComparisonText(col, op, val);
    var t := op + (" " + val);
    assert s == col + (" " + t);
    if i < |col| {
      assert NameChar(col[i]);
    } else if i > |col| {
      assert s[i] == t[i - |col| - 1];
      if i > |col| + 1 + |op| {
        assert t[i - |col| - 1] == val[i - |col| - 2 - |op|];
        assert NameChar(val[i - |col| - 2 - |op|]);
      }
    }
  }

  lemma OperatorStands(col: string, op: string, val: string)
    requires Word(col) && Word(val) && IsOperator(op)
    ensures Index(ComparisonText(col, op, val), op) == Some(|col| + 1)
    ensures forall o :: IsOperator(o) && |op| <= |o| && o != op ==> Index(ComparisonText(col, op, val), o).None?
  {
    var s := ComparisonText(col, op, val);
    assert s[|col| + 1..|col| + 1 + |op|] == op;
    forall j | 0 <= j < |col| + 1
      ensures !At(s, j, op)
    {
      OnlyOperator(col, op, val, j);
      if At(s, j, op) {
        AtChar(s, j, op, 0);
      }
    }
    IndexIs(s, op, |col| + 1);
    forall o | IsOperator(o) && |op| <= |o| && o != op
      ensures Index(s, o).None?
    {
      if Index(s, o).Some? {
        OtherOperatorAbsent(col, op, val, o, Index(s, o).value);
      }
    }
  }

  lemma OtherOperatorAbsent(col: string, op: string, val: string, o: string, j: nat)
    requires Word(col) && Word(val) && IsOperator(op) && IsOperator(o) && |op| <= |o| && o != op
    ensures !At(ComparisonText(col, op, val), j, o)
  {
    var s := ComparisonText(col, op, val);
    assert s[|col| + 1] == op[0];
    assert |op| == 1 || s[|col| + 2] == op[1];
    if At(s, j, o) {
      AtChar(s, j, o, 0);
      AtChar(s, j, o, |o| - 1);
      OnlyOperator(col, op, val, j);
      OnlyOperator(col, op, val, j + |o| - 1);
    }
  }

  /** Blanks stand only on the two sides of the operator. */
  lemma ComparisonBlanks(col: string, op: string, val: string, i: nat)
    requires Word(col) && Word(val) && IsOperator(op) && i < |ComparisonText(col, op, val)|
    requires i != |col| && i != |col| + 1 + |op|
    ensures ComparisonText(col, op, val)[i] != ' '
  {
    var s := ComparisonText(col, op, val);
    assert s == col + (" " + (op + (" " + val)));
    if i < |col| {
      assert s[i] == col[i] && NameChar(col[i]);
    } else if i < |col| + 1 + |op| {
      OnlyOperator(col, op, val, i);
    } else {
      assert s[i] == val[i - |col| - 2 - |op|] && NameChar(val[i - |col| - 2 - |op|]);
    }
  }

  lemma NoBetween(col: string, op: string, val: string)
    requires Word(col) && Word(val) && IsOperator(op)
    ensures Index(Upper(ComparisonText(col, op, val)), BETWEEN).None?
  {
    var s := ComparisonText(col, op, val);
    assert s[|col| + 1] == op[0];
    forall i | 0 <= i < |s| && i != |col| && i != |col| + 1 + |op|
      ensures s[i] != ' '
    {
      ComparisonBlanks(col, op, val, i);
    }
    var j := Index(Upper(s), BETWEEN);
    if j.Some? {
      AtChar(Upper(s), j.value, BETWEEN, 0);
      AtChar(Upper(s), j.value, BETWEEN, 1);
      AtChar(Upper(s), j.value, BETWEEN, 8);
    }
  }

  /** A comparison over plain words is read as that limit. */
  lemma ComparisonReadBack(columns: set<string>, col: string, op: string, val: string)
    requires Word(col) && Word(val) && IsOperator(op) && col in columns
    ensures ReadConjunct(columns, ComparisonText(col, op, val))
            == if op == ">" || op == ">=" then AtLeast(col, Limit(val, op == ">"))
                  else AtMost(col, Limit(val, op == "<"))
  {
    NoBetween(col, op, val);
    ComparisonCompared(col, op, val);
    WordIsColumn(col);
  }

  lemma ComparisonCompared(col: string, op: string, val: string)
    requires Word(col) && Word(val) && IsOperator(op)
    ensures Compare(ComparisonText(col, op, val)) == Compared(col, op, val)
  {
    var s := ComparisonText(col, op, val);
    OperatorStands(col, op, val);
    ComparisonSides(col, op, val);
    ComparedAt(s, col, op, val);
  }

  lemma ComparisonSides(col: string, op: string, val: string)
    ensures var s := ComparisonText(col, op, val);
            && |s| == |col| + 2 + |op| + |val| && s[|col| + 1 + |op|] == ' ' && s[|col|] == ' '
            && s[..|col| + 1] == col + " " && s[|col| + 1 + |op|..] == " " + val
  {
  }

  lemma ComparedAt(s: string, col: string, op: string, val: string)
    requires Word(col) && Word(val) && IsOperator(op) && |s| == |col| + 2 + |op| + |val|
    requires Index(s, op) == Some(|col| + 1)
    requires forall o :: IsOperator(o) && |op| <= |o| && o != op ==> Index(s, o).None?
    requires s[|col| + 1 + |op|] == ' ' && s[|col|] == ' '
    requires s[..|col| + 1] == col + " " && s[|col| + 1 + |op|..] == " " + val
    ensures Compare(s) == Compared(col, op, val)
  {
    WordPadded(col);
    WordPadded(val);
    TryFound(s, op, |col| + 1);
    OthersAbsent(s, op);
    FirstFound(s, op, Compared(col, op, val));
  }

  lemma FirstFound(s: string, op: string, c: Comparison)
    requires IsOperator(op) && TryOperator(s, op) == Some(c)
    requires op != ">=" ==> TryOperator(s, ">=").None?
    requires op != ">=" && op != "<=" ==> TryOperator(s, "<=").None?
    requires op == "<" ==> TryOperator(s, ">").None?
    ensures Compare(s) == c
  {
  }

  lemma TryFound(s: string, op: string, i: nat)
    requires IsOperator(op) && Index(s, op) == Some(i) && 0 < i && i + |op| < |s|
    requires s[i + |op|] == ' ' && s[i - 1] == ' '
    ensures TryOperator(s, op) == Some(Compared(Trim(s[..i]), op, Trim(s[i + |op|..])))
  {
  }

  lemma OthersAbsent(s: string, op: string)
    requires IsOperator(op) && forall o :: IsOperator(o) && |op| <= |o| && o != op ==> Index(s, o).None?
    ensures op != ">=" ==> TryOperator(s, ">=").None?
    ensures op != ">=" && op != "<=" ==> TryOperator(s, "<=").None?
    ensures op == "<" ==> TryOperator(s, ">").None?
  {
    assert IsOperator(">=") && IsOperator("<=") && IsOperator(">");
  }

  lemma WordPadded(w: string)
    requires Word(w)
    ensures Trim(w + " ") == w && Trim(" " + w) == w
  {
    WordIsTight(w);
    TrimPadded("", w, " ");
    TrimPadded(" ", w, "");
    assert "" + w + " " == w + " " && " " + w + "" == " " + w;
  }

  // ----- a batched statement -----

  lemma {:induction false} WordsPass(w: string, y: string, depth: int)
    requires forall i :: 0 <= i < |w| ==> NameChar(w[i])
    requires Passes(y, depth, false)
    ensures Passes(w + y, depth, false)
    decreases |w|
  {
    if w == "" {
      assert w + y == y;
    } else {
      assert (w + y)[1..] == w[1..] + y && (w + y + " ")[0] == w[0];
      assert NameChar(w[0]);
      WordsPass(w[1..], y, depth);
    }
  }

  lemma WordIsQuiet(w: string)
    requires Word(w)
    ensures Quiet(w)
  {
    WordsPass(w, "", 0);
    assert w + "" == w;
  }

  lemma BlankPasses(y: string)
    requires Passes(y, 0, false) && y != "" && UpperChar(y[0]) != 'A'
    ensures Passes(" " + y, 0, false)
  {
    assert (" " + y)[1..] == y && (" " + y + " ")[1] == y[0];
  }

  function BetweenClause(col: string, lo: int, hi: int): Clause {
    Between(col + (BETWEEN + Decimal(lo)), Decimal(hi))
  }

  function Batch(col: string, lo: int, hi: int): string {
    BetweenText(col, Decimal(lo), Decimal(hi))
  }

  /** A BETWEEN with literal ends is a proper clause of the splitter. */
  lemma BatchIsProper(col: string, lo: int, hi: int)
    requires Word(col)
    ensures Proper(BetweenClause(col, lo, hi)) && Render(BetweenClause(col, lo, hi)) == Batch(col, lo, hi)
    ensures Tight(Batch(col, lo, hi)) && NameChar(Batch(col, lo, hi)[0])
    ensures NameChar(Batch(col, lo, hi)[|Batch(col, lo, hi)| - 1])
  {
    DecimalIsWord(lo);
    DecimalIsWord(hi);
    DecimalStart(lo);
    LowIsQuiet(col, Decimal(lo));
    WordIsQuiet(Decimal(hi));
    BetweenRendered(col, Decimal(lo), Decimal(hi));
  }

  lemma BetweenRendered(col: string, l: string, h: string)
    requires Word(col) && Word(l) && Word(h)
    ensures col + (BETWEEN + l) + " AND " + h == BetweenText(col, l, h)
    ensures Tight(BetweenText(col, l, h)) && NameChar(BetweenText(col, l, h)[0])
    ensures NameChar(BetweenText(col, l, h)[|BetweenText(col, l, h)| - 1])
  {
    var s := BetweenText(col, l, h);
    assert s[0] == col[0] && s[|s| - 1] == h[|h| - 1];
  }

  lemma LowIsQuiet(col: string, l: string)
    requires Word(col) && Word(l) && UpperChar(l[0]) != 'A'
    ensures Quiet(col + (BETWEEN + l)) && HasBetween(col + (BETWEEN + l))
  {
    KeywordAfterWord(col, BETWEEN, l);
    LimitPasses(l);
    WordsPass(col, BETWEEN + l, 0);
  }

  lemma LimitPasses(l: string)
    requires Word(l) && UpperChar(l[0]) != 'A'
    ensures Passes(BETWEEN + l, 0, false) && BETWEEN + l != "" && (BETWEEN + l)[0] == ' '
  {
    var y := "BETWEEN" + (" " + l);
    KeywordPasses(l);
    assert y[0] == 'B';
    BlankPasses(y);
    assert BETWEEN + l == " " + y;
  }

  lemma KeywordPasses(l: string)
    requires Word(l) && UpperChar(l[0]) != 'A'
    ensures Passes("BETWEEN" + (" " + l), 0, false)
  {
    WordIsQuiet(l);
    BlankPasses(l);
    WordsPass("BETWEEN", " " + l, 0);
  }

  lemma DecimalStart(n: int)
    ensures Decimal(n)[0] == '-' || '0' <= Decimal(n)[0] <= '9'
  {
    assert CharDigit(Numeral(if n < 0 then -n else n, 10)[0]) < 10;
  }

  /** Where the blanks of a BETWEEN clause stand, and what follows them. */
  lemma NoOrInBatch(col: string, lo: int, hi: int)
    requires Word(col)
    ensures !Contains(Upper(Batch(col, lo, hi)), " OR ")
  {
    var l, h, s := Decimal(lo), Decimal(hi), Batch(col, lo, hi);
    DecimalIsWord(lo);
    DecimalIsWord(hi);
    DecimalStart(lo);
    DecimalStart(hi);
    AfterBlanks(col, l, h);
    forall i | 0 <= i < |s| && !BlankPlace(col, l, i)
      ensures s[i] != ' '
    {
      BatchBlanks(col, l, h, i);
    }
    var at := Index(Upper(s), " OR ");
    if at.Some? {
      AtChar(Upper(s), at.value, " OR ", 0);
      AtChar(Upper(s), at.value, " OR ", 1);
    }
  }

  predicate BlankPlace(col: string, lo: string, i: nat) {
    i == |col| || i == |col| + 8 || i == |col| + 9 + |lo| || i == |col| + 13 + |lo|
  }

  lemma BatchBlanks(col: string, lo: string, hi: string, i: nat)
    requires Word(col) && Word(lo) && Word(hi) && i < |BetweenText(col, lo, hi)| && !BlankPlace(col, lo, i)
    ensures BetweenText(col, lo, hi)[i] != ' '
  {
    var s, n, m := BetweenText(col, lo, hi), |col| + 9, |col| + 9 + |lo|;
    if i < |col| {
      assert s[i] == col[i] && NameChar(col[i]);
    } else if i < n {
      assert s[i] == BETWEEN[i - |col|];
    } else if i < m {
      assert s[i] == lo[i - n] && NameChar(lo[i - n]);
    } else if i < m + 5 {
      assert s[i] == " AND "[i - m];
    } else {
      assert s[i] == hi[i - m - 5] && NameChar(hi[i - m - 5]);
    }
  }

  /** What follows each blank. */
  lemma AfterBlanks(col: string, lo: string, hi: string)
    requires Word(col) && Word(lo) && Word(hi)
    ensures var s := BetweenText(col, lo, hi);
            && s[|col| + 1] == 'B' && s[|col| + 9] == lo[0]
            && s[|col| + 10 + |lo|] == 'A' && s[|col| + 14 + |lo|] == hi[0]
  {
    var s := BetweenText(col, lo, hi);
    assert s[|col| + 1] == BETWEEN[1];
    assert s[|col| + 10 + |lo|] == " AND "[1];
  }

  lemma ConditionIs(prefix: string, t: string)
    requires Tight(t) && t[0] != ';' && t[|t| - 1] != ';'
    requires Index(Upper(prefix + "WHERE " + t), "WHERE") == Some(|prefix|)
    ensures Condition(prefix + "WHERE " + t) == Some(t)
  {
    assert (prefix + "WHERE " + t)[|prefix| + 5..] == " " + t + "";
    TrimPadded(" ", t, "");
    TightTrim(t);
  }

  lemma GatherBatch(columns: set<string>, col: string, lo: int, hi: int, rest: seq<string>, bounds: Bounds)
    requires Word(col) && col in columns
    ensures Gather(columns, [Batch(col, lo, hi)] + rest, bounds)
            == Gather(columns, rest, bounds[col := Ends(lo, hi)])
  {
    DecimalIsWord(lo);
    DecimalIsWord(hi);
    BetweenReadBack(columns, col, Decimal(lo), Decimal(hi));
    assert ([Batch(col, lo, hi)] + rest)[1..] == rest;
  }

  function Ends(lo: int, hi: int): Bound {
    Bound(Some(Limit(Decimal(lo), false)), Some(Limit(Decimal(hi), false)))
  }

  lemma EndsMeasured(lo: int, hi: int)
    requires IsInt64(lo) && IsInt64(hi)
    ensures Measure(Ends(lo, hi)).Known? && WindowSize(Ends(lo, hi)) == Max(0, hi - lo + 1)
    ensures hi - lo + 1 <= MAX_INT64 ==> Measure(Ends(lo, hi)) == Known(Max(0, hi - lo + 1))
    ensures hi - lo + 1 > MAX_INT64 ==> Silenced(Measure(Ends(lo, hi)))
  {
    DecimalRead(lo);
    DecimalRead(hi);
    ClosedMeasured(Ends(lo, hi), lo, hi);
  }

  lemma ClosedMeasured(b: Bound, lo: int, hi: int)
    requires Full(b) && !b.lo.value.open && !b.hi.value.open && IsInt64(lo) && IsInt64(hi)
    requires LiteralInt(b.lo.value.text) == Some(lo) && LiteralInt(b.hi.value.text) == Some(hi)
    ensures Measure(b).Known? && WindowSize(b) == Max(0, hi - lo + 1)
    ensures hi - lo + 1 <= MAX_INT64 ==> Measure(b) == Known(Max(0, hi - lo + 1))
    ensures hi - lo + 1 > MAX_INT64 ==> Silenced(Measure(b))
  {
  }

  lemma SplitOne(col: string, lo: int, hi: int)
    requires Word(col)
    ensures Split(Batch(col, lo, hi)) == [Batch(col, lo, hi)]
  {
    var c, t := BetweenClause(col, lo, hi), Batch(col, lo, hi);
    BatchIsProper(col, lo, hi);
    TightTrim(t);
    assert [c][1..] == [] && Parts([]) == [];
    SplitUndoesJoin([c]);
  }

  /** A statement rewritten as the remediation says, over a known column, is silenced
      exactly when its window is below the threshold or too wide for an int64. */
  lemma BatchedStatementSilencedIff(columns: set<string>, prefix: string, col: string, lo: int, hi: int, v: Verdict)
    requires Word(col) && col in columns && IsInt64(lo) && IsInt64(hi)
    requires Index(Upper(prefix + "WHERE " + Batch(col, lo, hi)), "WHERE") == Some(|prefix|)
    requires Outcome(columns, prefix + "WHERE " + Batch(col, lo, hi), v)
    ensures v.Known?
    ensures Silenced(v) <==> hi - lo + 1 < THRESHOLD || hi - lo + 1 > MAX_INT64
  {
    var t, clean := Batch(col, lo, hi), prefix + "WHERE " + Batch(col, lo, hi);
    BatchIsProper(col, lo, hi);
    ConditionIs(prefix, t);
    NoOrInBatch(col, lo, hi);
    GatherOne(columns, col, lo, hi);
    OneWindow(columns, clean, t, col, Ends(lo, hi), v);
    EndsMeasured(lo, hi);
  }

  lemma GatherOne(columns: set<string>, col: string, lo: int, hi: int)
    requires Word(col) && col in columns
    ensures Gathered(columns, Batch(col, lo, hi)) == Some(map[col := Ends(lo, hi)])
  {
    var t := Batch(col, lo, hi);
    SplitOne(col, lo, hi);
    GatherBatch(columns, col, lo, hi, [], map[]);
    assert [t] + [] == [t];
  }

  lemma OneWindow(columns: set<string>, clean: string, cond: string, col: string, b: Bound, v: Verdict)
    requires Condition(clean) == Some(cond) && !Contains(Upper(cond), " OR ")
    requires Gathered(columns, cond) == Some(map[col := b]) && Full(b)
    requires Outcome(columns, clean, v)
    ensures v == Measure(b)
  {
    assert col in map[col := b];
  }

  /** With windows on two columns the span is one or the other, as the map yields them:
      the finding can come and go between runs. */
  lemma SpanDependsOnMapOrder(columns: set<string>, a: string, la: int, ha: int, b: string, lb: int, hb: int)
    requires Word(a) && Word(b) && a != b && a in columns && b in columns
    requires IsInt64(la) && IsInt64(ha) && IsInt64(lb) && IsInt64(hb)
    ensures var cond := Join([BetweenClause(a, la, ha), BetweenClause(b, lb, hb)]);
            Gathered(columns, cond).Some?
            && forall v :: Possible(Gathered(columns, cond).value, v) <==>
                             v == Measure(Ends(la, ha)) || v == Measure(Ends(lb, hb))
  {
    var cond := Join([BetweenClause(a, la, ha), BetweenClause(b, lb, hb)]);
    SplitTwo(a, la, ha, b, lb, hb);
    GatherTwo(columns, a, la, ha, b, lb, hb);
    assert Gathered(columns, cond) == Some(map[a := Ends(la, ha)][b := Ends(lb, hb)]);
    forall v
      ensures Possible(Gathered(columns, cond).value, v) <==> v == Measure(Ends(la, ha)) || v == Measure(Ends(lb, hb))
    {
      PossibleTwo(a, Ends(la, ha), b, Ends(lb, hb), v);
    }
  }

  lemma PossibleTwo(a: string, x: Bound, b: string, y: Bound, v: Verdict)
    requires a != b && Full(x) && Full(y)
    ensures Possible(map[a := x][b := y], v) <==> v == Measure(x) || v == Measure(y)
  {
    var bounds := map[a := x][b := y];
    assert a in bounds && bounds[a] == x && b in bounds && bounds[b] == y;
  }

  lemma SplitTwo(a: string, la: int, ha: int, b: string, lb: int, hb: int)
    requires Word(a) && Word(b)
    ensures Split(Join([BetweenClause(a, la, ha), BetweenClause(b, lb, hb)])) == [Batch(a, la, ha), Batch(b, lb, hb)]
  {
    var c, d := BetweenClause(a, la, ha), BetweenClause(b, lb, hb);
    BatchIsProper(a, la, ha);
    BatchIsProper(b, lb, hb);
    TightTrim(Batch(a, la, ha));
    TightTrim(Batch(b, lb, hb));
    TwoParts(c, d);
    SplitUndoesJoin([c, d]);
  }

  lemma TwoParts(c: Clause, d: Clause)
    ensures Parts([c, d]) == [Trim(Render(c)), Trim(Render(d))]
  {
    assert [c, d][1..] == [d] && [d][1..] == [] && Parts([]) == [];
  }

  lemma GatherTwo(columns: set<string>, a: string, la: int, ha: int, b: string, lb: int, hb: int)
    requires Word(a) && Word(b) && a in columns && b in columns
    ensures Gather(columns, [Batch(a, la, ha), Batch(b, lb, hb)], map[])
            == Some(map[a := Ends(la, ha)][b := Ends(lb, hb)])
  {
    var ta, tb := Batch(a, la, ha), Batch(b, lb, hb);
    GatherBatch(columns, a, la, ha, [tb], map[]);
    GatherBatch(columns, b, lb, hb, [], map[a := Ends(la, ha)]);
    assert [ta] + [tb] == [ta, tb] && [tb] + [] == [tb];
  }

  // ----- the instances -----

  /** "WHERE id >": the condition is a single conjunct that ends in its operator. */
  lemma TrailingOperatorOverruns(col: string)
    requires Word(col)
    ensures Overruns(col + " >")
  {
    var conj := col + " >";
    assert forall i :: 0 <= i < |conj| - 2 ==> conj[i] == col[i] && NameChar(conj[i]);
    assert conj[|col|] == ' ' && conj[|col| + 1] == '>';
    assert conj[|col| + 1..|col| + 2] == ">";
    forall j | 0 <= j < |col| + 1
      ensures !At(conj, j, ">")
    {
      assert conj[j..j + 1] == [conj[j]];
    }
    IndexIs(conj, ">", |col| + 1);
    NotInside(conj, ">=", '=');
    NotInside(conj, "<=", '=');
    NotBetween(conj, |col|);
  }

  lemma NotInside(s: string, p: string, c: char)
    requires c in p && forall i :: 0 <= i < |s| ==> s[i] != c
    ensures Index(s, p).None?
  {
    var k: nat :| k < |p| && p[k] == c;
    forall j: nat
      ensures !At(s, j, p)
    {
      CharIfAt(s, j, p, k);
    }
  }

  lemma NotBetween(s: string, n: nat)
    requires |s| == n + 2 && forall i :: 0 <= i < n ==> s[i] != ' '
    ensures Index(Upper(s), BETWEEN).None?
  {
    var at := Index(Upper(s), BETWEEN);
    if at.Some? {
      AtChar(Upper(s), at.value, BETWEEN, 0);
    }
  }

  lemma TrailingOperatorFaults(columns: set<string>, prefix: string, col: string)
    requires Word(col) && Index(Upper(prefix + "WHERE " + (col + " >")), "WHERE") == Some(|prefix|)
    ensures Outcome(columns, prefix + "WHERE " + (col + " >"), Faulted)
  {
    var t, clean := col + " >", prefix + "WHERE " + (col + " >");
    TrailingOperatorOverruns(col);
    TrailingText(col);
    ConditionIs(prefix, t);
    TrailingSplit(col);
    OutcomeFaultsIff(columns, clean);
    assert Split(t)[0] == t;
  }

  lemma TrailingText(col: string)
    requires Word(col)
    ensures var t := col + " >"; Tight(t) && NameChar(t[0]) && t[|t| - 1] == '>'
    ensures !Contains(Upper(col + " >"), " OR ")
  {
    var t := col + " >";
    assert t[0] == col[0] && t[|t| - 1] == '>' && NameChar(t[0]);
    assert forall i :: 0 <= i < |col| ==> t[i] == col[i] && NameChar(t[i]);
    var at := Index(Upper(t), " OR ");
    if at.Some? {
      AtChar(Upper(t), at.value, " OR ", 0);
    }
  }

  lemma TrailingSplit(col: string)
    requires Word(col)
    ensures Split(col + " >") == [col + " >"]
  {
    TrailingQuiet(col);
    TrailingText(col);
    TightTrim(col + " >");
    QuietSplit(col + " >");
  }

  lemma TrailingQuiet(col: string)
    requires Word(col)
    ensures Quiet(col + " >")
  {
    assert ">"[1..] == "" && Passes("", 0, false);
    BlankPasses(">");
    assert " " + ">" == " >";
    WordsPass(col, " >", 0);
  }
}
