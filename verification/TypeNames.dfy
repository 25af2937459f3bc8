/** Which category the names of PostgreSQL's types are synthesized for (categorize in
    internal/hydrate/engine.go), in any case and with blanks around them. */
module TypeNames {
  import opened Columns
  import opened Text

  lemma NotArray(t: string)
    requires t == "" || t[|t| - 1] != ']'
    ensures !HasSuffix(t, "[]")
  {
    if |t| >= 2 {
      assert t[|t| - 2..][1] == t[|t| - 1];
    }
  }

  lemma Lacks(t: string, p: string, k: nat)
    requires k < |p| && p[k] !in t
    ensures !Contains(t, p)
  {
    var i := Index(t, p);
    if i.Some? {
      AtChar(t, i.value, p, k);
    }
  }

  lemma NoPrefix(t: string, p: string, k: nat)
    requires k < |p| && (k < |t| ==> t[k] != p[k])
    ensures !(p <= t)
  {
    if k < |t| && |p| <= |t| {
      assert t[..|p|][k] == t[k];
    }
  }

  /** A name that is no array's, no time's, no bit string's and no character type's. */
  predicate Late(t: string) {
    && t != "" && t[|t| - 1] != ']' && t[0] != 't' && (t[0] == 'b' ==> |t| > 2 && t[2] != 't')
    && 'h' !in t && 'v' !in t
  }

  lemma LateName(t: string)
    requires Late(t)
    ensures !HasSuffix(t, "[]") && !("bit" <= t) && !("timestamp" <= t) && !("time" <= t)
    ensures !Contains(t, "char") && !Contains(t, "varying")
  {
    NotArray(t);
    NoPrefix(t, "timestamp", 0);
    NoPrefix(t, "time", 0);
    if t[0] != 'b' {
      NoPrefix(t, "bit", 0);
    } else {
      NoPrefix(t, "bit", 2);
    }
    Lacks(t, "char", 1);
    Lacks(t, "varying", 0);
  }

  lemma SerialName(t: string)
    requires Late(t) && HasSuffix(t, "serial") && |t| >= 6 && t[|t| - 1] == 'l' && t[0] != 'x'
    ensures CategoryOf(t) == Numeric
  {
    LateName(t);
    assert t != "interval" by {
      assert "interval"[5] == 'v';
    }
  }

  lemma LateInteger(t: string)
    requires Late(t) && (t == "smallint" || t == "integer" || t == "bigint")
    ensures CategoryOf(t) == Numeric
  {
    LateName(t);
  }

  lemma IntegerNames(t: string)
    requires t == "smallint" || t == "integer" || t == "bigint"
    ensures CategoryOf(t) == Numeric
  {
    assert Late("smallint") && Late("integer") && Late("bigint");
    LateInteger(t);
  }

  lemma LateFraction(t: string)
    requires Late(t) && (t == "real" || t == "double precision" || t == "money")
    ensures CategoryOf(t) == Numeric
  {
    LateName(t);
  }

  lemma FractionNames(t: string)
    requires t == "real" || t == "double precision" || t == "money"
    ensures CategoryOf(t) == Numeric
  {
    assert Late("real") && Late("double precision") && Late("money");
    LateFraction(t);
  }

  lemma SerialNames(t: string)
    requires t == "smallserial" || t == "serial" || t == "bigserial"
    ensures CategoryOf(t) == Numeric
  {
    assert Late("smallserial") && Late("serial") && Late("bigserial");
    SerialEnds();
    SerialName(t);
  }

  lemma SerialEnds()
    ensures HasSuffix("smallserial", "serial") && HasSuffix("bigserial", "serial") && HasSuffix("serial", "serial")
  {
    assert "smallserial"[5..] == "serial" && "bigserial"[3..] == "serial" && "serial"[0..] == "serial";
  }

  /** Numbers of a precision, with it or without. */
  lemma DecimalNames(t: string)
    requires ("numeric" <= t || "decimal" <= t) && t[|t| - 1] != ']' && 'h' !in t && 'v' !in t
    ensures CategoryOf(t) == Numeric
  {
    if "numeric" <= t {
      assert t[0] == "numeric"[0];
    } else {
      assert t[0] == "decimal"[0] && t[1] == "decimal"[1];
    }
    LateName(t);
  }

  /** Character types, with a length or without. */
  lemma CharacterNames(t: string)
    requires ("varchar" <= t || "character" <= t) && t[|t| - 1] != ']'
    ensures CategoryOf(t) == Textual
  {
    NotArray(t);
    if "varchar" <= t {
      assert t[..7] == "varchar" && t[3..7] == t[..7][3..] == "char";
      assert At(t, 3, "char") && t[0] == 'v' && t[1] == 'a';
    } else {
      assert t[..9] == "character" && t[0..4] == t[..9][0..4] == "char";
      assert At(t, 0, "char") && t[0] == 'c' && t[1] == 'h';
    }
    NoPrefix(t, "bit", 0);
    NoPrefix(t, "timestamp", 0);
    NoPrefix(t, "time", 0);
  }

  lemma TextNames(t: string)
    requires t == "text" || t == "citext" || t == "name"
    ensures CategoryOf(t) == Textual
  {
    NotArray(t);
    NoPrefix(t, "bit", 0);
    if t == "text" {
      NoPrefix(t, "timestamp", 1);
      NoPrefix(t, "time", 1);
    } else {
      NoPrefix(t, "timestamp", 0);
      NoPrefix(t, "time", 0);
    }
  }

  /** Bit strings and times, with a length or a zone or without. */
  lemma PrefixedNames(t: string)
    requires t != "" && t[|t| - 1] != ']'
    ensures "bit" <= t ==> CategoryOf(t) == Bit
    ensures "time" <= t ==> CategoryOf(t) == Temporal
  {
    NotArray(t);
    if "bit" <= t {
      assert t[0] == "bit"[0] && t[1] == "bit"[1] && t[2] == "bit"[2];
    } else if "time" <= t {
      assert t[0] == "time"[0] && t[1] == "time"[1] && t[2] == "time"[2];
    }
  }

  lemma SingleNames(t: string)
    ensures t == "boolean" ==> CategoryOf(t) == Boolean
    ensures t == "uuid" ==> CategoryOf(t) == Uuid
    ensures t == "bytea" ==> CategoryOf(t) == Bytea
    ensures t == "json" || t == "jsonb" ==> CategoryOf(t) == Json
    ensures t == "inet" || t == "cidr" ==> CategoryOf(t) == Inet
  {
    if t == "" || t[|t| - 1] != ']' {
      NotArray(t);
    }
  }

  lemma OtherNames(t: string)
    ensures t == "macaddr" ==> CategoryOf(t) == Macaddr
    ensures t == "macaddr8" ==> CategoryOf(t) == Macaddr8
    ensures t == "interval" ==> CategoryOf(t) == Interval
    ensures t == "xml" ==> CategoryOf(t) == Xml
  {
    if t == "" || t[|t| - 1] != ']' {
      NotArray(t);
    }
  }

  lemma PointAndDate(t: string)
    ensures t == "point" ==> CategoryOf(t) == Point
    ensures t == "date" ==> CategoryOf(t) == Temporal
  {
    if t == "point" || t == "date" {
      NotArray(t);
      NoPrefix(t, "bit", 0);
    }
  }

  /** The name is one of a family's. */
  predicate Names(family: Category, t: string) {
    match family
    case Boolean => t == "boolean"
    case Uuid => t == "uuid"
    case Bytea => t == "bytea"
    case Json => t == "json" || t == "jsonb"
    case Inet => t == "inet" || t == "cidr"
    case Macaddr => t == "macaddr"
    case Macaddr8 => t == "macaddr8"
    case Interval => t == "interval"
    case Xml => t == "xml"
    case Point => t == "point"
    case Bit => "bit" <= t && t[|t| - 1] != ']'
    case Temporal => t == "date" || ("time" <= t && t[|t| - 1] != ']')
    case Textual =>
      t == "text" || t == "citext" || t == "name" || (("varchar" <= t || "character" <= t) && t[|t| - 1] != ']')
    case Numeric =>
      || t == "smallint" || t == "integer" || t == "bigint" || t == "real" || t == "double precision" || t == "money"
      || t == "smallserial" || t == "serial" || t == "bigserial"
      || (("numeric" <= t || "decimal" <= t) && t[|t| - 1] != ']' && 'h' !in t && 'v' !in t)
    case Array => HasSuffix(t, "[]")
    case Unmodelled => false
  }

  /** Every type name of a family, in any case, with blanks around it and with its modifiers, is
      synthesized as that family's. */
  lemma FamilyRead(typ: string, family: Category)
    requires Names(family, Lower(Trim(typ)))
    ensures Categorize(typ) == family
  {
    var t := Lower(Trim(typ));
    match family
    case Bit => PrefixedNames(t);
    case Temporal => TimeNames(t);
    case Textual => TextualNames(t);
    case Numeric => NumericNames(t);
    case Point => PointAndDate(t);
    case Macaddr => OtherNames(t);
    case Macaddr8 => OtherNames(t);
    case Interval => OtherNames(t);
    case Xml => OtherNames(t);
    case Array =>
    case _ => SingleNames(t);
  }

  lemma TimeNames(t: string)
    requires Names(Temporal, t)
    ensures CategoryOf(t) == Temporal
  {
    if t == "date" {
      PointAndDate(t);
    } else {
      PrefixedNames(t);
    }
  }

  lemma TextualNames(t: string)
    requires Names(Textual, t)
    ensures CategoryOf(t) == Textual
  {
    if t == "text" || t == "citext" || t == "name" {
      TextNames(t);
    } else {
      CharacterNames(t);
    }
  }

  lemma NumericNames(t: string)
    requires Names(Numeric, t)
    ensures CategoryOf(t) == Numeric
  {
    if t == "smallint" || t == "integer" || t == "bigint" {
      IntegerNames(t);
    } else if t == "real" || t == "double precision" || t == "money" {
      FractionNames(t);
    } else if t == "smallserial" || t == "serial" || t == "bigserial" {
      SerialNames(t);
    } else {
      DecimalNames(t);
    }
  }
}
