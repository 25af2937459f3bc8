/** The column facts hydration reads (internal/fixture/model.go), and what it reads in a
    type name (internal/sqlkind/chartype.go, categorize in internal/hydrate/engine.go). */
module Columns {
  import opened Digits
  import opened Numbers
  import opened Text
  import opened Values
  import opened Wrappers

  datatype Range = Range(min: Value, max: Value)

  /** The format hints synthesis knows; any other is none to it. */
  datatype Format =
    | Email | UuidText | Url | Hostname | Slug | Ipv4 | NumericString | EnumLike | FreeText | JsonShape | NoFormat

  datatype Column = Column(
    typ: string, nullable: bool, nullFraction: Option<real>, unique: bool, distinct: Option<int>,
    format: Format, values: seq<string>, range: Option<Range>, lengthMax: Option<int>,
    histogram: Option<seq<Value>>, generated: string, expression: string)

  /** A user-defined type; labels are those that stand in when they were withheld. */
  datatype TypeDef = TypeDef(kind: string, labels: seq<string>, base: string)

  type Types = map<string, TypeDef>

  /** EnumLabels. */
  function EnumLabels(types: Types, name: string): Option<seq<string>> {
    if name in types && types[name].kind == "enum" then Some(types[name].labels) else None
  }

  /** ResolveType: through at most sixteen domains. */
  function ResolveType(types: Types, name: string): string {
    Resolved(types, name, 16)
  }

  function Resolved(types: Types, name: string, hops: nat): string
    decreases hops
  {
    if hops == 0 || name !in types || types[name].kind != "domain" || types[name].base == "" then name
    else Resolved(types, types[name].base, hops - 1)
  }

  predicate DomainOver(types: Types, name: string, base: string) {
    name in types && types[name].kind == "domain" && types[name].base == base != ""
  }

  predicate AtBottom(types: Types, name: string) {
    name !in types || types[name].kind != "domain" || types[name].base == ""
  }

  /** Each name is a domain over the next. */
  ghost predicate DomainChain(types: Types, names: seq<string>) {
    forall i :: 0 <= i < |names| - 1 ==> DomainOver(types, names[i], names[i + 1])
  }

  /** Domains over domains are followed to the type at the bottom, through sixteen of them at most:
      a longer chain ends at the sixteenth base. */
  lemma ChainResolved(types: Types, names: seq<string>)
    requires names != [] && DomainChain(types, names)
    ensures |names| - 1 >= 16 ==> ResolveType(types, names[0]) == names[16]
    ensures |names| - 1 < 16 && AtBottom(types, names[|names| - 1]) ==>
              ResolveType(types, names[0]) == names[|names| - 1]
  {
    ChainFollowed(types, names, 16);
  }

  lemma {:induction false} ChainFollowed(types: Types, names: seq<string>, hops: nat)
    requires names != [] && DomainChain(types, names)
    ensures |names| - 1 >= hops ==> Resolved(types, names[0], hops) == names[hops]
    ensures |names| - 1 < hops && AtBottom(types, names[|names| - 1]) ==>
              Resolved(types, names[0], hops) == names[|names| - 1]
    decreases hops
  {
    if hops > 0 && |names| > 1 {
      assert DomainOver(types, names[0], names[1]);
      forall i | 0 <= i < |names[1..]| - 1
        ensures DomainOver(types, names[1..][i], names[1..][i + 1])
      {
        assert DomainOver(types, names[i + 1], names[i + 2]);
      }
      ChainFollowed(types, names[1..], hops - 1);
    }
  }

  /** The column with the type that its domain stands for. */
  function BaseColumn(types: Types, c: Column): Column {
    c.(typ := ResolveType(types, c.typ))
  }

  // ----- internal/sqlkind/chartype.go -----

  function BaseType(t: string): string {
    var i := Index(t, "(");
    Lower(Trim(if i.Some? then t[..i.value] else t))
  }

  function TypeLength(t: string): Option<int> {
    var i := Index(t, "(");
    if i.None? then None
    else
      var rest := t[i.value + 1..];
      var j := Index(rest, ")");
      if j.None? then None
      else
        var inner := rest[..j.value];
        var k := Index(inner, ",");
        ParseInt(Trim(if k.Some? then inner[..k.value] else inner))
  }

  predicate IsBoundedStringBase(base: string) {
    base in ["text", "varchar", "character varying", "character", "char"]
  }

  function CharMaxLength(t: string): (r: Option<int>)
    ensures r.Some? ==> r.value > 0
  {
    var base, n := BaseType(t), TypeLength(t);
    if !IsBoundedStringBase(base) then None
    else if n.Some? && n.value > 0 then n
    else if base == "char" || base == "character" then Some(1)
    else None
  }

  lemma OpeningFound(base: string, rest: string)
    requires '(' !in base
    ensures Index(base + ("(" + rest), "(") == Some(|base|)
  {
    var t := base + ("(" + rest);
    assert t[|base|..|base| + 1] == "(";
    forall j | 0 <= j < |base|
      ensures !At(t, j, "(")
    {
      assert t[j] == base[j] && t[j..j + 1] == [t[j]];
    }
    IndexIs(t, "(", |base|);
  }

  /** No character of a numeral closes or separates a length. */
  lemma NumeralFound(n: nat, rest: string)
    requires rest != "" && (rest[0] == ')' || rest[0] == ',')
    ensures Index(Numeral(n, 10) + rest, [rest[0]]) == Some(|Numeral(n, 10)|)
    ensures Index(Numeral(n, 10), ",").None?
    ensures Trim(Numeral(n, 10)) == Numeral(n, 10)
  {
    var s, t := Numeral(n, 10), Numeral(n, 10) + rest;
    assert forall i :: 0 <= i < |s| ==> CharDigit(s[i]) < 10;
    TightTrim(s);
    assert t[|s|..|s| + 1] == [rest[0]];
    forall j | 0 <= j < |s|
      ensures !At(t, j, [rest[0]]) && !At(s, j, ",")
    {
      assert t[j] == s[j] && t[j..j + 1] == [t[j]] && s[j..j + 1] == [s[j]];
    }
    IndexIs(t, [rest[0]], |s|);
  }

  /** What may follow the length: the closing parenthesis, or more modifiers and then it. */
  predicate Closing(modifiers: string) {
    modifiers == "" || (modifiers[0] == ',' && ')' !in modifiers)
  }

  lemma ClosingFound(n: nat, modifiers: string, tail: string)
    requires Closing(modifiers)
    ensures Index(Numeral(n, 10) + modifiers + (")" + tail), ")") == Some(|Numeral(n, 10) + modifiers|)
  {
    var s := Numeral(n, 10) + modifiers;
    var t := s + (")" + tail);
    assert forall i :: 0 <= i < |Numeral(n, 10)| ==> CharDigit(Numeral(n, 10)[i]) < 10;
    assert t[|s|] == (")" + tail)[0] == ')';
    assert t[|s|..|s| + 1] == [t[|s|]];
    forall j | 0 <= j < |s|
      ensures !At(t, j, ")")
    {
      assert t[j] == s[j] && t[j..j + 1] == [t[j]];
    }
    IndexIs(t, ")", |s|);
  }

  lemma LengthRead(base: string, n: nat, modifiers: string, tail: string)
    requires '(' !in base && n <= MAX_INT64 && Closing(modifiers)
    ensures TypeLength(base + ("(" + (Numeral(n, 10) + modifiers + (")" + tail)))) == Some(n)
  {
    var inner := Numeral(n, 10) + modifiers;
    OpeningFound(base, inner + (")" + tail));
    ClosingFound(n, modifiers, tail);
    FirstModifierRead(n, modifiers);
    DecimalParsed(n);
    BetweenParentheses(base, inner, tail, Numeral(n, 10));
  }

  /** The length is what stands between the parentheses, up to the first comma. */
  lemma BetweenParentheses(base: string, inner: string, tail: string, length: string)
    requires Index(base + ("(" + (inner + (")" + tail))), "(") == Some(|base|)
    requires Index(inner + (")" + tail), ")") == Some(|inner|)
    requires var k := Index(inner, ","); Trim(if k.Some? then inner[..k.value] else inner) == length
    ensures TypeLength(base + ("(" + (inner + (")" + tail)))) == ParseInt(length)
  {
    var rest := inner + (")" + tail);
    assert (base + ("(" + rest))[|base| + 1..] == rest && rest[..|inner|] == inner;
  }

  /** What stands before the first comma between the parentheses. */
  lemma FirstModifierRead(n: nat, modifiers: string)
    requires n <= MAX_INT64 && Closing(modifiers)
    ensures var inner := Numeral(n, 10) + modifiers;
            var k := Index(inner, ",");
            Trim(if k.Some? then inner[..k.value] else inner) == Numeral(n, 10)
  {
    if modifiers == "" {
      NumeralFound(n, ")");
      assert Numeral(n, 10) + modifiers == Numeral(n, 10);
    } else {
      NumeralFound(n, modifiers);
      assert (Numeral(n, 10) + modifiers)[..|Numeral(n, 10)|] == Numeral(n, 10);
      assert [modifiers[0]] == ",";
    }
  }

  lemma BaseRead(base: string, rest: string)
    requires '(' !in base
    ensures BaseType(base + ("(" + rest)) == Lower(Trim(base))
  {
    OpeningFound(base, rest);
    assert (base + ("(" + rest))[..|base|] == base;
  }

  /** A character type written with its length, in any case and spacing and with any further
      modifiers, is read as that length. */
  lemma CharWidthReadBack(base: string, n: nat, modifiers: string, tail: string)
    requires Lower(Trim(base)) in ["text", "varchar", "character varying", "character", "char"]
    requires '(' !in base && 0 < n <= MAX_INT64 && Closing(modifiers)
    ensures CharMaxLength(base + ("(" + (Numeral(n, 10) + modifiers + (")" + tail)))) == Some(n)
  {
    LengthRead(base, n, modifiers, tail);
    BaseRead(base, Numeral(n, 10) + modifiers + (")" + tail));
  }

  /** Without a length a character holds one, and text and varying ones any number. */
  lemma CharWidthDefault(typ: string)
    requires '(' !in typ && Lower(Trim(typ)) in ["char", "character", "text", "varchar", "character varying"]
    ensures CharMaxLength(typ) == if Lower(Trim(typ)) in ["char", "character"] then Some(1) else None
  {
    forall j | 0 <= j < |typ|
      ensures !At(typ, j, "(")
    {
      CharIfAt(typ, j, "(", 0);
    }
  }

  /** effectiveWidth: the tighter of the type's limit and the declared length. */
  function EffectiveWidth(c: Column): (r: Option<nat>)
    ensures r.Some? ==> r.value > 0
    ensures r.None? <==> CharMaxLength(c.typ).None? && (c.lengthMax.None? || c.lengthMax.value <= 0)
    ensures r.Some? ==> (CharMaxLength(c.typ).Some? ==> r.value <= CharMaxLength(c.typ).value)
                        && (c.lengthMax.Some? && c.lengthMax.value > 0 ==> r.value <= c.lengthMax.value)
    ensures r.Some? ==> Some(r.value as int) == CharMaxLength(c.typ) || Some(r.value as int) == c.lengthMax
  {
    var width := CharMaxLength(c.typ);
    if c.lengthMax.Some? && c.lengthMax.value > 0 && (width.None? || c.lengthMax.value < width.value) then
      Some(c.lengthMax.value)
    else if width.Some? then Some(width.value)
    else None
  }

  // ----- categorize -----

  datatype Category =
    | Array | Bytea | Json | Uuid | Boolean | Inet | Macaddr | Macaddr8 | Interval | Xml | Bit | Point
    | Temporal | Textual | Numeric | Unmodelled

  function Categorize(typ: string): Category {
    CategoryOf(Lower(Trim(typ)))
  }

  /** categorize, of a name in lower case. */
  function CategoryOf(t: string): Category {
    if HasSuffix(t, "[]") then Array
    else if t == "bytea" then Bytea
    else if t == "json" || t == "jsonb" then Json
    else if t == "uuid" then Uuid
    else if t == "boolean" then Boolean
    else if t == "inet" || t == "cidr" then Inet
    else if t == "macaddr" then Macaddr
    else if t == "macaddr8" then Macaddr8
    else if t == "interval" then Interval
    else if t == "xml" then Xml
    else if "bit" <= t then Bit
    else if t == "point" then Point
    else if "timestamp" <= t || t == "date" || "time" <= t then Temporal
    else if t == "text" || Contains(t, "char") || Contains(t, "varying") || t == "citext" || t == "name" then Textual
    else if t == "smallint" || t == "integer" || t == "bigint" || t == "real" || t == "double precision" || t == "money"
         || "numeric" <= t || "decimal" <= t || HasSuffix(t, "serial") then Numeric
    else Unmodelled
  }

  /** A column of a number type without a format hint. */
  predicate IsNumber(c: Column) {
    c.format == NoFormat && Categorize(c.typ).Numeric?
  }

  /** generatedByDatabase. */
  predicate GeneratedByDatabase(c: Column) {
    c.generated == "stored" && c.expression != "" && c.expression != "opaque"
  }

  /** unsupportedType. */
  predicate UnsupportedType(typ: string) {
    var t := Lower(Trim(typ));
    t in ["tsvector", "tsquery", "line", "lseg", "box", "path", "polygon", "circle"] || HasSuffix(t, "range")
  }
}
