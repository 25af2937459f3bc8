/** internal/hydrate/checkdomain.go and applyCheckDomain of internal/hydrate/engine.go:
    reading CHECK constraints as the values a column may hold, and keeping to them. */
module CheckDomains {
  import opened CheckText
  import opened Numbers
  import opened Order
  import T = Text
  import opened Values
  import opened Wrappers

  /** strconv.ParseFloat. */
  type ParseFloat = string -> Option<real>

  /** One conjunct the parser recognizes. */
  datatype Check =
    | In(values: seq<string>)
    | AtLeast(k: real)
    | Above(k: real)
    | AtMost(k: real)
    | Below(k: real)

  datatype Parsed = Parsed(column: string, check: Check)

  // ----- parseCheckAtom -----

  function DropSpace(s: string): string {
    if s != "" && IsSpace(s[0]) then DropSpace(s[1..]) else s
  }

  /** indexKeyword for "= ANY" at the text left after prev; a blank prev is also the start. */
  predicate StartsEqAny(prev: char, rest: string) {
    var r := DropSpace(rest);
    && r != "" && r[0] == '=' && IsSpace(prev)
    && var t := DropSpace(r[1..]);
       |t| >= 3 && UpperChar3(t) == "ANY"
  }

  function UpperChar3(t: string): string
    requires |t| >= 3
  {
    [T.UpperChar(t[0]), T.UpperChar(t[1]), T.UpperChar(t[2])]
  }

  function IndexEqAny(prev: char, rest: string): (r: Option<nat>)
    ensures r.Some? ==> r.value < |rest|
    decreases |rest|
  {
    if rest == "" then None
    else if StartsEqAny(prev, rest) then Some(0)
    else
      var later := IndexEqAny(rest[0], rest[1..]);
      if later.Some? then Some(later.value + 1) else None
  }

  const SPECIAL: string := " ()'\",+-*/"

  /** plainColumn. */
  function PlainColumn(s: string): Option<string> {
    PlainTrimmed(T.Trim(s))
  }

  function PlainTrimmed(t: string): Option<string> {
    var cast := T.Index(t, "::");
    var u := StripOuterParens(if cast.Some? then T.Trim(t[..cast.value]) else t);
    if u == "" || exists i :: 0 <= i < |u| && u[i] in SPECIAL then None else Some(u)
  }

  /** numericLiteral. */
  function NumericLiteral(s: string, pf: ParseFloat): Option<real> {
    var t := T.Trim(s);
    var cast := T.Index(t, "::");
    pf(StripOuterParens(if cast.Some? then T.Trim(t[..cast.value]) else t))
  }

  /** The literals still to come in an ARRAY body, cur being the one read so far. */
  function Literals(rest: string, inStr: bool, cur: string): Option<seq<string>>
    decreases |rest|
  {
    if rest == "" then if inStr then None else Some([])
    else if rest[0] == '\'' && inStr && |rest| > 1 && rest[1] == '\'' then Literals(rest[2..], inStr, cur + "'")
    else if rest[0] == '\'' then
      var later := Literals(rest[1..], !inStr, if inStr then "" else cur);
      if inStr && later.Some? then Some([cur] + later.value) else later
    else Literals(rest[1..], inStr, if inStr then cur + [rest[0]] else cur)
  }

  function ArrayLiterals(s: string): Option<seq<string>> {
    var open := T.Index(s, "[");
    var close := T.LastIndexOf(s, ']');
    if open.None? || close.None? || close.value < open.value then None
    else
      T.AtChar(s, open.value, "[", 0);
      Literals(s[open.value + 1..close.value], false, "")
  }

  method ArrayLiteralsLoop(s: string) returns (r: Option<seq<string>>)
    ensures r == ArrayLiterals(s)
  {
    var open := T.Index(s, "[");
    var close := T.LastIndexOf(s, ']');
    if open.None? || close.None? || close.value < open.value {
      return None;
    }
    var body := s[open.value + 1..close.value];
    var out: seq<string>, cur, inStr := [], "", false;
    var i := 0;
    assert body[0..] == body;
    assert Literals(body, false, "").Some? ==> [] + Literals(body, false, "").value == Literals(body, false, "").value;
    while i < |body|
      invariant 0 <= i <= |body|
      invariant var later := Literals(body[i..], inStr, cur);
                Literals(body, false, "") == if later.Some? then Some(out + later.value) else None
    {
      ghost var rest := body[i..];
      assert rest[1..] == body[i + 1..] && (i + 1 < |body| ==> rest[2..] == body[i + 2..]);
      if body[i] == '\'' && inStr && i + 1 < |body| && body[i + 1] == '\'' {
        cur := cur + "'";
        i := i + 1;
      } else if body[i] == '\'' {
        if inStr {
          ghost var later := Literals(rest[1..], false, "");
          assert later.Some? ==> out + ([cur] + later.value) == out + [cur] + later.value;
          out := out + [cur];
          cur := "";
        }
        inStr := !inStr;
      } else if inStr {
        cur := cur + [body[i]];
      }
      i := i + 1;
    }
    assert body[i..] == "";
    if inStr {
      return None;
    }
    assert out + [] == out;
    r := Some(out);
  }

  const OPERATORS: seq<string> := [">=", "<=", "<>", ">", "<", "="]

  function CheckOf(op: string, n: real): Option<Check> {
    if op == ">=" then Some(AtLeast(n))
    else if op == ">" then Some(Above(n))
    else if op == "<=" then Some(AtMost(n))
    else if op == "<" then Some(Below(n))
    else None
  }

  /** The first operator of the list found anywhere decides. */
  function ParseComparison(s: string, ops: seq<string>, pf: ParseFloat): Option<Parsed> {
    if ops == [] then None
    else
      var op := ops[0];
      var at := T.Index(s, op);
      if at.None? then ParseComparison(s, ops[1..], pf)
      else
        var col := PlainColumn(s[..at.value]);
        if col.None? || op == "<>" || op == "=" then None
        else
          var n := NumericLiteral(T.Trim(s[at.value + |op|..]), pf);
          if n.None? || CheckOf(op, n.value).None? then None
          else Some(Parsed(col.value, CheckOf(op, n.value).value))
  }

  function ParseCheckAtom(part: string, pf: ParseFloat): Option<Parsed> {
    var s := StripOuterParens(part);
    var any := IndexEqAny(' ', s);
    if any.Some? then
      var col := PlainColumn(s[..any.value]);
      var vals := ArrayLiterals(s[any.value..]);
      if col.None? || vals.None? || vals.value == [] then None else Some(Parsed(col.value, In(vals.value)))
    else ParseComparison(s, OPERATORS, pf)
  }

  // ----- merging -----

  /** An explicit set of legal values and inclusive numeric bounds. */
  datatype Domain = Domain(values: seq<string>, min: Option<real>, max: Option<real>)

  const ANYTHING: Domain := Domain([], None, None)

  /** The inclusive domain of one check: a strict bound moves inside by one. */
  function DomainOf(c: Check): Domain {
    match c
    case In(vs) => Domain(vs, None, None)
    case AtLeast(k) => Domain([], Some(k), None)
    case Above(k) => Domain([], Some(k + 1.0), None)
    case AtMost(k) => Domain([], None, Some(k))
    case Below(k) => Domain([], None, Some(k - 1.0))
  }

  lemma ElementsCons(a: seq<string>)
    requires a != []
    ensures Elements(a) == {a[0]} + Elements(a[1..])
  {
    assert a == [a[0]] + a[1..];
  }

  function Intersect(a: seq<string>, b: seq<string>): (r: seq<string>)
    ensures Elements(r) == Elements(a) * Elements(b)
  {
    if a == [] then []
    else
      ElementsCons(a);
      var rest := Intersect(a[1..], b);
      if a[0] in b then
        ElementsCons([a[0]] + rest);
        [a[0]] + rest
      else rest
  }

  function MergeDomain(a: Domain, b: Domain): Domain {
    Domain(if b.values == [] then a.values else if a.values == [] then b.values else Intersect(a.values, b.values),
           if b.min.Some? && (a.min.None? || b.min.value > a.min.value) then b.min else a.min,
           if b.max.Some? && (a.max.None? || b.max.value < a.max.value) then b.max else a.max)
  }

  /** All the checks on one column, merged in order. */
  function Merged(checks: seq<Check>): Domain {
    if checks == [] then ANYTHING
    else MergeDomain(Merged(checks[..|checks| - 1]), DomainOf(checks[|checks| - 1]))
  }

  // ----- checkDomains -----

  datatype Constraint = Constraint(kind: string, expression: string, validated: Option<bool>)

  /** Constraints that production itself satisfies and that can be read. */
  predicate Obeyed(con: Constraint) {
    con.kind == "check" && con.expression != "" && con.expression != "opaque" && con.validated != Some(false)
  }

  function ChecksIn(parts: seq<string>, pf: ParseFloat): seq<Parsed> {
    if parts == [] then []
    else
      var n := |parts| - 1;
      var p := ParseCheckAtom(parts[n], pf);
      ChecksIn(parts[..n], pf) + (if p.Some? then [p.value] else [])
  }

  /** Every recognized conjunct of every obeyed constraint, in order. */
  function AllChecks(cons: seq<Constraint>, pf: ParseFloat): seq<Parsed> {
    if cons == [] then []
    else
      var n := |cons| - 1;
      AllChecks(cons[..n], pf) + (if Obeyed(cons[n]) then ChecksIn(Conjuncts(cons[n].expression), pf) else [])
  }

  /** A CHECK contributes its recognized conjuncts, unless it is opaque or was never validated; any
      other constraint contributes nothing. */
  lemma ConstraintContributes(cons: seq<Constraint>, con: Constraint, pf: ParseFloat)
    ensures con.kind != "check" || con.expression in ["", "opaque"] || con.validated == Some(false) ==>
              AllChecks(cons + [con], pf) == AllChecks(cons, pf)
    ensures con.kind == "check" && con.expression !in ["", "opaque"] && con.validated in [None, Some(true)] ==>
              AllChecks(cons + [con], pf) == AllChecks(cons, pf) + ChecksIn(Conjuncts(con.expression), pf)
  {
    assert (cons + [con])[..|cons|] == cons;
  }

  function OnColumn(ps: seq<Parsed>, col: string): seq<Check> {
    if ps == [] then []
    else
      var n := |ps| - 1;
      OnColumn(ps[..n], col) + (if ps[n].column == col then [ps[n].check] else [])
  }

  function Lookup(m: map<string, Domain>, col: string): Domain {
    if col in m then m[col] else ANYTHING
  }

  lemma OnColumnSnoc(ps: seq<Parsed>, p: Parsed, col: string)
    ensures OnColumn(ps + [p], col) == OnColumn(ps, col) + (if p.column == col then [p.check] else [])
  {
    assert (ps + [p])[..|ps|] == ps;
  }

  lemma MergedSnoc(checks: seq<Check>, c: Check)
    ensures Merged(checks + [c]) == MergeDomain(Merged(checks), DomainOf(c))
  {
    assert (checks + [c])[..|checks|] == checks;
  }

  /** What the map holds for every column after the checks seen so far. */
  ghost predicate Holds(m: map<string, Domain>, seen: seq<Parsed>) {
    forall col :: Lookup(m, col) == Merged(OnColumn(seen, col))
  }

  lemma HoldsSnoc(m: map<string, Domain>, seen: seq<Parsed>, p: Parsed)
    requires Holds(m, seen)
    ensures Holds(m[p.column := MergeDomain(Lookup(m, p.column), DomainOf(p.check))], seen + [p])
  {
    var m' := m[p.column := MergeDomain(Lookup(m, p.column), DomainOf(p.check))];
    forall col
      ensures Lookup(m', col) == Merged(OnColumn(seen + [p], col))
    {
      OnColumnSnoc(seen, p, col);
      assert OnColumn(seen, col) + [] == OnColumn(seen, col);
      MergedSnoc(OnColumn(seen, col), p.check);
    }
  }

  method CheckDomains(cons: seq<Constraint>, pf: ParseFloat) returns (out: map<string, Domain>)
    ensures Holds(out, AllChecks(cons, pf))
    ensures forall col :: col in out ==> out[col] != ANYTHING
  {
    out := map[];
    for i := 0 to |cons|
      invariant Holds(out, AllChecks(cons[..i], pf))
    {
      assert cons[..i + 1][..i] == cons[..i];
      assert AllChecks(cons[..i], pf) + [] == AllChecks(cons[..i], pf);
      if Obeyed(cons[i]) {
        out := MergeConstraint(out, cons[i], AllChecks(cons[..i], pf), pf);
      }
    }
    assert cons[..|cons|] == cons;
    out := DropUnconstrained(out, AllChecks(cons, pf));
  }

  /** The loop over the conjuncts of one constraint. */
  method MergeConstraint(before: map<string, Domain>, con: Constraint, ghost seen: seq<Parsed>, pf: ParseFloat)
    returns (out: map<string, Domain>)
    requires Holds(before, seen)
    ensures Holds(out, seen + ChecksIn(Conjuncts(con.expression), pf))
  {
    out := before;
    var parts := SplitConjuncts(con.expression);
    assert seen + ChecksIn(parts[..0], pf) == seen;
    for j := 0 to |parts|
      invariant Holds(out, seen + ChecksIn(parts[..j], pf))
    {
      ghost var now := seen + ChecksIn(parts[..j], pf);
      assert parts[..j + 1][..j] == parts[..j];
      var p := ParseCheckAtom(parts[j], pf);
      if p.Some? {
        HoldsSnoc(out, now, p.value);
        assert now + [p.value] == seen + (ChecksIn(parts[..j], pf) + [p.value]);
        out := out[p.value.column := MergeDomain(Lookup(out, p.value.column), DomainOf(p.value.check))];
      } else {
        assert ChecksIn(parts[..j], pf) + [] == ChecksIn(parts[..j], pf);
      }
    }
    assert parts[..|parts|] == parts;
  }

  /** The loop that deletes columns left without any restriction. */
  method DropUnconstrained(before: map<string, Domain>, ghost seen: seq<Parsed>) returns (out: map<string, Domain>)
    requires Holds(before, seen)
    ensures Holds(out, seen)
    ensures forall col :: col in out ==> out[col] != ANYTHING
  {
    out := before;
    var keys := out.Keys;
    while keys != {}
      invariant forall col :: Lookup(out, col) == Lookup(before, col)
      invariant forall col :: col in out && col !in keys ==> out[col] != ANYTHING
      decreases keys
    {
      var k :| k in keys;
      if k in out && |out[k].values| == 0 && out[k].min.None? && out[k].max.None? {
        out := out - {k};
      }
      keys := keys - {k};
    }
  }
}
