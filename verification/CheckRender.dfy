/** How PostgreSQL writes the two sides of a comparison, and that internal/hydrate/checkdomain.go
    reads the name and the number in them: under any parentheses, with a cast behind or without. */
module CheckRenderings {
  import opened CheckDomains
  import opened CheckParse
  import opened CheckText
  import T = Text
  import opened Wrappers

  /** A name or a numeral: no blank at its ends, and nothing that encloses, quotes, compares or casts. */
  ghost predicate Bare(text: string) {
    T.Tight(text) && NoOperator(text)
    && forall c :: c in text ==> c != '(' && c != ')' && c != '\'' && c != ':'
  }

  /** Nothing, or a cast to a type, which may have modifiers in parentheses. */
  ghost predicate Cast(cast: string) {
    cast == "" || exists typ :: cast == "::" + typ && T.Tight(typ) && Balanced(typ) && NoOperator(typ)
  }

  /** The text in parentheses, with blanks between them, and the cast behind. */
  function Written(text: string, pads: seq<Pad>, cast: string): string {
    Enclose(text, pads) + cast
  }

  lemma {:induction false} BareCloses(s: string)
    requires forall c :: c in s ==> c != '(' && c != ')' && c != '\''
    ensures Balanced(s)
  {
    if s != "" {
      assert s[0] in s && forall c :: c in s[1..] ==> c in s;
      BareCloses(s[1..]);
    }
  }

  lemma {:induction false} EnclosedHolds(text: string, pads: seq<Pad>, c: char)
    requires BlankPads(pads) && c !in text && !T.IsBlank(c) && c != '(' && c != ')'
    ensures c !in Enclose(text, pads)
  {
    if pads != [] {
      assert forall i :: 0 <= i < |pads[1..]| ==> pads[1..][i] == pads[i + 1];
      EnclosedHolds(text, pads[1..], c);
    }
  }

  lemma EnclosedBare(text: string, pads: seq<Pad>)
    requires Bare(text) && BlankPads(pads)
    ensures Balanced(Enclose(text, pads)) && NoOperator(Enclose(text, pads)) && ':' !in Enclose(text, pads)
    ensures StripOuterParens(Enclose(text, pads)) == text
  {
    BareCloses(text);
    StripEnclosed(text, pads);
    T.TightTrim(text);
    assert text[0] in text;
    assert forall i :: 0 <= i < |text| ==> text[i] in text;
    EnclosedHolds(text, pads, ':');
    EnclosedHolds(text, pads, '=');
    EnclosedHolds(text, pads, '<');
    EnclosedHolds(text, pads, '>');
  }

  lemma CastFound(e: string, typ: string)
    requires ':' !in e
    ensures T.Index(e + ("::" + typ), "::") == Some(|e|)
  {
    var s := e + ("::" + typ);
    assert s[|e|..|e| + 2] == "::";
    forall j | 0 <= j < |e|
      ensures !T.At(s, j, "::")
    {
      assert s[j] == e[j];
      T.CharIfAt(s, j, "::", 0);
    }
    T.IndexIs(s, "::", |e|);
  }

  lemma NoCastFound(e: string)
    requires ':' !in e
    ensures T.Index(e, "::").None?
  {
    forall j | 0 <= j < |e|
      ensures !T.At(e, j, "::")
    {
      T.CharIfAt(e, j, "::", 0);
    }
  }

  /** What both readers cut out of the text. */
  lemma Uncast(text: string, pads: seq<Pad>, cast: string)
    requires Bare(text) && BlankPads(pads) && Cast(cast) && T.Tight(Enclose(text, pads))
    ensures var s := T.Trim(Written(text, pads, cast));
            var at := T.Index(s, "::");
            StripOuterParens(if at.Some? then T.Trim(s[..at.value]) else s) == text
    ensures T.Tight(Written(text, pads, cast)) && Balanced(Written(text, pads, cast))
            && NoOperator(Written(text, pads, cast))
  {
    var e := Enclose(text, pads);
    EnclosedBare(text, pads);
    T.TightTrim(e);
    if cast == "" {
      assert e + "" == e;
      NoCastFound(e);
    } else {
      var typ :| cast == "::" + typ && T.Tight(typ) && Balanced(typ) && NoOperator(typ);
      CastFound(e, typ);
      var s := e + ("::" + typ);
      assert s[..|e|] == e;
      T.TightTrim(s);
      assert ("::" + typ)[1..] == ":" + typ && (":" + typ)[1..] == typ;
      ClosesThen(e, "::" + typ, 0, false, 0);
    }
  }

  /** A column is read as its name. */
  lemma ColumnIsRead(name: string, pads: seq<Pad>, cast: string)
    requires Bare(name) && (forall c :: c in name ==> c !in SPECIAL)
    requires BlankPads(pads) && Cast(cast) && T.Tight(Enclose(name, pads))
    ensures PlainColumn(Written(name, pads, cast)) == Some(name) && ColumnText(Written(name, pads, cast), name)
  {
    Uncast(name, pads, cast);
    assert forall i :: 0 <= i < |name| ==> name[i] in name;
  }

  /** A number is read as what its numeral stands for. */
  lemma NumeralIsRead(numeral: string, pads: seq<Pad>, cast: string, k: real, pf: ParseFloat)
    requires Bare(numeral) && pf(numeral) == Some(k)
    requires BlankPads(pads) && Cast(cast) && T.Tight(Enclose(numeral, pads))
    ensures NumericLiteral(Written(numeral, pads, cast), pf) == Some(k)
    ensures LiteralText(Written(numeral, pads, cast), k, pf)
  {
    Uncast(numeral, pads, cast);
  }

  /** A comparison is read as that bound on the named column, however its two sides are enclosed
      and cast. */
  lemma WrittenComparisonRead(name: string, ps: seq<Pad>, cast: string, op: Operator,
                              numeral: string, qs: seq<Pad>, cast': string, k: real, pf: ParseFloat)
    requires Bare(name) && (forall c :: c in name ==> c !in SPECIAL) && Bare(numeral) && pf(numeral) == Some(k)
    requires BlankPads(ps) && Cast(cast) && T.Tight(Enclose(name, ps))
    requires BlankPads(qs) && Cast(cast') && T.Tight(Enclose(numeral, qs))
    ensures ParseCheckAtom(ComparisonText(Written(name, ps, cast), op, Written(numeral, qs, cast')), pf)
            == Some(Parsed(name, CheckFor(op, k)))
  {
    ColumnIsRead(name, ps, cast);
    NumeralIsRead(numeral, qs, cast', k, pf);
    ComparisonReadBack(Written(name, ps, cast), op, Written(numeral, qs, cast'), name, k, pf);
  }
}
