/** internal/hydrate/engine.go: turning an ordinal into a value of a column's shape, and
    keeping text within the column's width without losing uniqueness. */
module Rendering {
  import opened Columns
  import opened Digits
  import opened Numbers
  import opened Text
  import opened Values
  import opened Wrappers

  /** What is taken from Go's library: reading a bound as a time, and the %v rendering. */
  datatype Library = Library(toTime: Value -> Option<int>, show: Value -> string)

  // ----- templates -----

  /** Text around a decimal ordinal, padded with zeros to at least pad digits. */
  datatype Template = Template(prefix: string, pad: nat, suffix: string)

  function Zeros(k: nat): (s: string)
    ensures |s| == k
  {
    if k == 0 then "" else "0" + Zeros(k - 1)
  }

  function Padded(n: nat, b: nat, pad: nat): string
    requires 2 <= b <= 36
  {
    var s := Numeral(n, b);
    if |s| < pad then Zeros(pad - |s|) + s else s
  }

  function Fill(t: Template, n: nat): string {
    t.prefix + Padded(n, 10, t.pad) + t.suffix
  }

  /** The text of one hinted format; None for the formats that are no template. */
  function FormatTemplate(c: Column): Option<Template> {
    match c.format
    case Email => Some(Template("user_", 5, "@example.invalid"))
    case UuidText => Some(Template("00000000-0000-4000-8000-", 12, ""))
    case Url => Some(Template("https://example.invalid/", 0, ""))
    case Hostname => Some(Template("host-", 0, ".example.invalid"))
    case Slug => Some(Template("slug-", 0, ""))
    case NumericString => Some(Template("", 0, ""))
    case EnumLike => if c.values == [] then Some(Template("value_", 0, "")) else None
    case FreeText => Some(Template("sample text ", 0, ""))
    case _ => None
  }

  /** The text of a type category, when no format is hinted. */
  function CategoryTemplate(k: Category): Option<Template> {
    match k
    case Interval => Some(Template("", 0, " seconds"))
    case Xml => Some(Template("<value>", 0, "</value>"))
    case Uuid => Some(Template("00000000-0000-4000-8000-", 12, ""))
    case Textual => Some(Template("val_", 0, ""))
    case Unmodelled => Some(Template("val_", 0, ""))
    case _ => None
  }

  function TemplateOf(c: Column): Option<Template> {
    if c.format != NoFormat then FormatTemplate(c) else CategoryTemplate(Categorize(c.typ))
  }

  // ----- rawFakeValue -----

  /** toInt64 on a range bound. */
  function ToBound(v: Value): (r: Option<int>)
  {
    match v
    case Int(i) => Some(i)
    case Num(x) => Some(ToI64(x))
    case _ => None
  }

  function NumericBounds(c: Column): Option<(int, int)> {
    if c.range.None? then None
    else
      var l, h := ToBound(c.range.value.min), ToBound(c.range.value.max);
      if l.None? || h.None? || h.value < l.value then None else Some((l.value, h.value))
  }

  /** A unique column counts up from the least value; any other wraps inside the range. */
  function NumericInRange(c: Column, n: nat, unique: bool): int {
    var b := NumericBounds(c);
    if b.None? then n
    else
      var (lo, hi) := b.value;
      var span := Wrap(Wrap(hi - lo) + 1);
      if unique then Wrap(lo + n) else if span <= 0 then lo else Wrap(lo + n % span)
  }

  const HOUR: int := 3_600_000_000_000
  const EPOCH_2000: int := 946_684_800_000_000_000

  /** temporalInRange, in nanoseconds: Sub saturates and Duration arithmetic wraps. */
  function TemporalInRange(lib: Library, c: Column, n: nat): int {
    if c.range.Some? && lib.toTime(c.range.value.min).Some? then
      var lo, hi := lib.toTime(c.range.value.min).value, lib.toTime(c.range.value.max);
      if hi.Some? && hi.value >= lo then
        var span := Clamp(hi.value - lo, MIN_INT64, MAX_INT64);
        if span <= 0 then lo else lo + n % span
      else lo
    else EPOCH_2000 + Wrap(n * HOUR)
  }

  function BitWidth(c: Column): (w: nat)
    ensures 1 <= w <= 64
  {
    var n := TypeLength(c.typ);
    if n.None? || n.value <= 0 then 1 else if n.value > 64 then 64 else n.value
  }

  function BitLiteral(n: nat, width: nat): (s: string)
    ensures |s| == width
  {
    seq(width, i requires 0 <= i < width => if n / Power(2, width - 1 - i) % 2 == 1 then '1' else '0')
  }

  function HexByte(n: nat): string {
    Padded(n % 256, 16, 2)
  }

  /** Escaping inside an array literal. */
  function Escaped(s: string): string {
    if s == "" then "" else (if s[0] == '\\' || s[0] == '"' then ['\\', s[0]] else [s[0]]) + Escaped(s[1..])
  }

  const BLANK_COLUMN: Column :=
    Column("", false, None, false, None, NoFormat, [], None, None, None, "", "")

  function ElementColumn(c: Column): Column {
    var t := Trim(c.typ);
    BLANK_COLUMN.(typ := if HasSuffix(t, "[]") then t[..|t| - 2] else t)
  }

  /** The value of a type category that is neither a template nor an array. */
  function ScalarValue(lib: Library, k: Category, c: Column, n: nat, unique: bool): (v: Value)
    ensures v != Null && !v.Num?
    ensures v.Int? <==> k.Numeric?
    ensures v.Int? ==> v == Int(NumericInRange(c, n, unique))
  {
    match k
    case Inet => Text("192.0.2." + Numeral(n % 256, 10))
    case Macaddr => Text("08:00:2b:" + HexByte(n / 0x1_0000) + ":" + HexByte(n / 0x100) + ":" + HexByte(n))
    case Macaddr8 =>
      Text("08:00:2b:" + HexByte(n / 0x1_0000_0000) + ":" + HexByte(n / 0x100_0000) + ":" + HexByte(n / 0x1_0000)
           + ":" + HexByte(n / 0x100) + ":" + HexByte(n))
    case Bit => Text(BitLiteral(n, BitWidth(c)))
    case Point => Text("(" + Numeral(n, 10) + "," + Numeral(n, 10) + ")")
    case Json => Text("{}")
    case Numeric => Int(NumericInRange(c, n, unique))
    case Temporal => Time(TemporalInRange(lib, c, n))
    case Boolean => Bool(n % 2 == 0)
    case _ => Bytes("\\x" + Padded(n, 16, 8))
  }

  /** A hinted value that is no template. */
  function HintedValue(c: Column, n: nat): (v: Value)
    ensures v.Text?
  {
    if c.format == Ipv4 then Text("192.0.2." + Numeral(n % 256, 10))
    else if c.format == EnumLike && c.values != [] then Text(c.values[n % |c.values|])
    else Text("{}")
  }

  /** The value before any width clamp. */
  function RawFakeValue(lib: Library, c: Column, n: nat, unique: bool): (v: Value)
    ensures v != Null && !v.Num?
    ensures v.Int? <==> c.format == NoFormat && Categorize(c.typ).Numeric?
    ensures v.Int? ==> v == Int(NumericInRange(c, n, unique))
    decreases |c.typ|
  {
    var t := TemplateOf(c);
    if t.Some? then Text(Fill(t.value, n))
    else if c.format != NoFormat then HintedValue(c, n)
    else if Categorize(c.typ).Array? then
      ArrayElementShorter(c);
      Text("{\"" + Escaped(lib.show(RawFakeValue(lib, ElementColumn(c), n, unique))) + "\"}")
    else ScalarValue(lib, Categorize(c.typ), c, n, unique)
  }

  lemma ArrayElementShorter(c: Column)
    requires Categorize(c.typ).Array?
    ensures |ElementColumn(c).typ| < |c.typ|
  {
    ArrayEnds(c.typ);
    BracketsKept(Trim(c.typ));
  }

  lemma ArrayEnds(typ: string)
    requires Categorize(typ).Array?
    ensures HasSuffix(Lower(Trim(typ)), "[]")
  {
  }

  lemma BracketsKept(t: string)
    requires HasSuffix(Lower(t), "[]")
    ensures HasSuffix(t, "[]")
  {
    var l, n := Lower(t), |t| - 2;
    assert l[n..][0] == '[' && l[n..][1] == ']';
    assert l[n] == LowerChar(t[n]) && l[n + 1] == LowerChar(t[n + 1]);
    assert t[n..] == [t[n], t[n + 1]];
  }

  // ----- fitCharWidth -----

  /** At most the last width base-36 digits of n. */
  function Base36Tail(n: nat, width: int): (s: string)
    ensures |s| <= Max(width, 0)
    ensures AllDigits(s, 36)
  {
    if width <= 0 then ""
    else
      var s := Numeral(n, 36);
      if |s| > width then s[|s| - width..] else s
  }

  function FitText(width: nat, n: nat, s: string, unique: bool): (r: string)
    ensures |r| <= width
    ensures |s| <= width ==> r == s
  {
    if |s| <= width then s
    else
      var tail := Base36Tail(n, width);
      if unique || |tail| >= width then tail else s[..width - |tail|] + tail
  }

  function FitCharWidth(c: Column, n: nat, v: Value, unique: bool): Value {
    var width := EffectiveWidth(c);
    if !v.Text? || width.None? then v else Text(FitText(width.value, n, v.s, unique))
  }

  /** fakeValue. */
  function FakeValue(lib: Library, c: Column, n: nat, unique: bool): (v: Value)
    ensures v != Null && !v.Num?
    ensures v.Int? <==> c.format == NoFormat && Categorize(c.typ).Numeric?
    ensures v.Int? ==> v == Int(NumericInRange(c, n, unique))
  {
    FitCharWidth(c, n, RawFakeValue(lib, c, n, unique), unique)
  }

  /** No text is longer than the type allows, nor than production values ever were. */
  lemma WidthRespected(lib: Library, c: Column, n: nat, unique: bool)
    requires FakeValue(lib, c, n, unique).Text?
    ensures CharMaxLength(c.typ).Some? ==> |FakeValue(lib, c, n, unique).s| <= CharMaxLength(c.typ).value
    ensures c.lengthMax.Some? && c.lengthMax.value > 0 ==> |FakeValue(lib, c, n, unique).s| <= c.lengthMax.value
    ensures RawFakeValue(lib, c, n, unique).Text?
    ensures EffectiveWidth(c).None? || |RawFakeValue(lib, c, n, unique).s| <= EffectiveWidth(c).value ==>
              FakeValue(lib, c, n, unique) == RawFakeValue(lib, c, n, unique)
  {
  }

  // ----- filling a template is injective -----

  lemma {:induction false} ValueAfterZeros(k: nat, s: string, b: nat)
    ensures ValueOf(Zeros(k) + s, b) == ValueOf(s, b)
    decreases |s|, k
  {
    if s != "" {
      var n := |s| - 1;
      assert (Zeros(k) + s)[..|Zeros(k) + s| - 1] == Zeros(k) + s[..n];
      ValueAfterZeros(k, s[..n], b);
    } else if k > 0 {
      assert Zeros(k) + s == Zeros(k);
      ZerosEnd(k);
      assert Zeros(k - 1) + "" == Zeros(k - 1);
      ValueAfterZeros(k - 1, "", b);
    }
  }

  lemma {:induction false} ZerosEnd(k: nat)
    requires k > 0
    ensures Zeros(k) == Zeros(k - 1) + "0"
  {
    if k > 1 {
      ZerosEnd(k - 1);
      assert "0" + (Zeros(k - 2) + "0") == ("0" + Zeros(k - 2)) + "0";
    }
  }

  lemma PaddedValue(n: nat, b: nat, pad: nat)
    requires 2 <= b <= 36
    ensures ValueOf(Padded(n, b, pad), b) == n
  {
    var s := Numeral(n, b);
    NumeralValue(n, b);
    if |s| < pad {
      ValueAfterZeros(pad - |s|, s, b);
    }
  }

  lemma FillInjective(t: Template, n: nat, m: nat)
    requires Fill(t, n) == Fill(t, m)
    ensures n == m
  {
    var x, y := Padded(n, 10, t.pad), Padded(m, 10, t.pad);
    assert x == Fill(t, n)[|t.prefix|..|Fill(t, n)| - |t.suffix|];
    assert y == Fill(t, m)[|t.prefix|..|Fill(t, m)| - |t.suffix|];
    PaddedValue(n, 10, t.pad);
    PaddedValue(m, 10, t.pad);
  }

  // ----- clamped text is injective -----

  /** The text holds a character that is no base-36 digit, whatever the ordinal. */
  predicate Marked(t: Template) {
    !AllDigits(t.prefix, 36) || !AllDigits(t.suffix, 36)
  }

  lemma MarkedFill(t: Template, n: nat)
    requires Marked(t)
    ensures !AllDigits(Fill(t, n), 36)
  {
    var s := Fill(t, n);
    if !AllDigits(t.prefix, 36) {
      var i :| 0 <= i < |t.prefix| && CharDigit(t.prefix[i]) >= 36;
      assert s[i] == t.prefix[i];
    } else {
      var i :| 0 <= i < |t.suffix| && CharDigit(t.suffix[i]) >= 36;
      assert s[|s| - |t.suffix| + i] == t.suffix[i];
    }
  }

  lemma {:induction false} NumeralLength(n: nat, b: nat, k: nat)
    requires 2 <= b <= 36 && k > 0 && n < Power(b, k)
    ensures |Numeral(n, b)| <= k
    decreases n
  {
    if n >= b {
      Division(n, b);
      if k == 1 {
        assert Power(b, 1) == b * Power(b, 0);
      } else {
        QuotientBelow(n, b, Power(b, k - 1));
        NumeralLength(n / b, b, k - 1);
      }
    }
  }

  lemma QuotientBelow(n: nat, b: nat, p: nat)
    requires b > 0 && n < b * p
    ensures n / b < p
  {
    if n / b >= p {
      Division(n, b);
      AtLeastProduct(b, n / b, p);
    }
  }

  lemma AtLeastProduct(b: nat, q: nat, p: nat)
    requires q >= p
    ensures b * q >= b * p
  {
  }

  lemma TailInjective(n: nat, m: nat, width: nat)
    requires width > 0 && n < Power(36, width) && m < Power(36, width)
    requires Base36Tail(n, width) == Base36Tail(m, width)
    ensures n == m
  {
    NumeralLength(n, 36, width);
    NumeralLength(m, 36, width);
    NumeralValue(n, 36);
    NumeralValue(m, 36);
  }

  /** A unique column of recognizable text stays unique under any width, as long as the
      width has room for that many ordinals. */
  lemma ClampedTextInjective(lib: Library, c: Column, n: nat, m: nat)
    requires TemplateOf(c).Some? && (EffectiveWidth(c).Some? ==> Marked(TemplateOf(c).value))
    requires EffectiveWidth(c).Some?
             ==> n < Power(36, EffectiveWidth(c).value) && m < Power(36, EffectiveWidth(c).value)
    requires FakeValue(lib, c, n, true) == FakeValue(lib, c, m, true)
    ensures n == m
  {
    var t := TemplateOf(c).value;
    var x, y := Fill(t, n), Fill(t, m);
    if EffectiveWidth(c).Some? {
      var w := EffectiveWidth(c).value;
      MarkedFill(t, n);
      MarkedFill(t, m);
      if |x| > w && |y| > w {
        TailInjective(n, m, w);
      }
    }
    if x == y {
      FillInjective(t, n, m);
    }
  }

  /** Every template but that of numeric_string is recognizable. */
  lemma TemplatesAreMarked(c: Column)
    requires TemplateOf(c).Some?
    ensures Marked(TemplateOf(c).value) <==> c.format != NumericString
  {
    if c.format == NoFormat {
      CategoriesAreMarked(Categorize(c.typ));
    } else {
      FormatsAreMarked(c);
    }
  }

  lemma FormatsAreMarked(c: Column)
    requires c.format != NoFormat && FormatTemplate(c).Some?
    ensures Marked(FormatTemplate(c).value) <==> c.format != NumericString
  {
    assert "user_"[4] == '_' && "00000000-0000-4000-8000-"[8] == '-' && "https://example.invalid/"[5] == ':';
    assert "host-"[4] == '-' && "slug-"[4] == '-' && "value_"[5] == '_' && "sample text "[6] == ' ';
  }

  lemma CategoriesAreMarked(k: Category)
    requires CategoryTemplate(k).Some?
    ensures Marked(CategoryTemplate(k).value)
  {
    assert " seconds"[0] == ' ' && "<value>"[0] == '<' && "val_"[3] == '_' && "00000000-0000-4000-8000-"[8] == '-';
  }

  /** Plain digits are not: an ordinal that fits and one that does not get the same text
      exactly when the base-36 digits of the one are the decimal digits of the other. */
  lemma NumericStringsCollideIff(lib: Library, c: Column, n: nat, m: nat, width: nat)
    requires c.format == NumericString && EffectiveWidth(c) == Some(width)
    requires |Numeral(n, 10)| <= width < |Numeral(m, 10)|
    ensures FakeValue(lib, c, n, true) == FakeValue(lib, c, m, true) <==> Base36Tail(m, width) == Numeral(n, 10)
  {
    NumericStringFitted(lib, c, n, width);
    NumericStringFitted(lib, c, m, width);
  }

  /** An ordinal too long for the width whose base-36 text reads like plain digits. */
  predicate LooksDecimal(m: nat, width: nat) {
    |Numeral(m, 10)| > width && AllDigits(Numeral(m, 36), 10)
  }

  /** A unique numeric_string column, as far as 36^width ordinals go, holds different text in
      every row exactly when no row too long for the width looks decimal in base 36. */
  lemma NumericStringsUniqueIff(lib: Library, c: Column, width: nat, count: nat)
    requires c.format == NumericString && EffectiveWidth(c) == Some(width) && count <= Power(36, width)
    ensures (forall n: nat, m: nat :: n < m < count ==> FakeValue(lib, c, n, true) != FakeValue(lib, c, m, true))
            <==> forall m: nat :: m < count ==> !LooksDecimal(m, width)
  {
    if m: nat :| m < count && LooksDecimal(m, width) {
      var n := DecimalTwin(m, width);
      NumericStringsCollideIff(lib, c, n, m, width);
    } else {
      forall n: nat, m: nat | n < m < count
        ensures FakeValue(lib, c, n, true) != FakeValue(lib, c, m, true)
      {
        NumericStringsDiffer(lib, c, width, n, m);
      }
    }
  }

  /** The ordinal whose decimal digits are the base-36 digits of m. */
  lemma DecimalTwin(m: nat, width: nat) returns (n: nat)
    requires width > 0 && m < Power(36, width) && LooksDecimal(m, width)
    ensures n < m && |Numeral(n, 10)| <= width && Base36Tail(m, width) == Numeral(n, 10)
  {
    var s := Numeral(m, 36);
    n := ValueOf(s, 10);
    NumeralWritten(m, 36);
    ValueWritten(s, 10);
    ValueGrowsWithBase(s, 10, 36);
    NumeralValue(m, 36);
    NumeralLength(m, 36, width);
  }

  lemma NumericStringsDiffer(lib: Library, c: Column, width: nat, n: nat, m: nat)
    requires c.format == NumericString && EffectiveWidth(c) == Some(width) && n != m
    requires n < Power(36, width) && m < Power(36, width) && !LooksDecimal(n, width) && !LooksDecimal(m, width)
    ensures FakeValue(lib, c, n, true) != FakeValue(lib, c, m, true)
  {
    NumericStringFitted(lib, c, n, width);
    NumericStringFitted(lib, c, m, width);
    NumeralLength(n, 36, width);
    NumeralLength(m, 36, width);
    NumeralValue(n, 10);
    NumeralValue(m, 10);
    NumeralValue(n, 36);
    NumeralValue(m, 36);
  }

  lemma NumericStringFitted(lib: Library, c: Column, n: nat, width: nat)
    requires c.format == NumericString && EffectiveWidth(c) == Some(width)
    ensures FakeValue(lib, c, n, true)
            == Text(if |Numeral(n, 10)| <= width then Numeral(n, 10) else Base36Tail(n, width))
  {
    assert Fill(Template("", 0, ""), n) == Numeral(n, 10);
    TemplateFitted(lib, c, Template("", 0, ""), n, width);
  }

  /** So at width 2, ordinals 30 and 108 collide. */
  lemma CollisionAtWidthTwo()
    ensures Numeral(30, 10) == "30" == Base36Tail(108, 2) && Numeral(108, 10) == "108"
  {
    Digits30();
    Digits108();
    Base36Of108();
  }

  lemma TemplateFitted(lib: Library, c: Column, t: Template, n: nat, width: nat)
    requires TemplateOf(c) == Some(t) && EffectiveWidth(c) == Some(width)
    ensures FakeValue(lib, c, n, true)
            == Text(if |Fill(t, n)| <= width then Fill(t, n) else Base36Tail(n, width))
  {
  }

  lemma Digits30()
    ensures Numeral(30, 10) == "30"
  {
    assert Numeral(3, 10) == "3";
  }

  lemma Digits108()
    ensures Numeral(108, 10) == "108"
  {
    assert Numeral(1, 10) == "1" && Numeral(10, 10) == Numeral(1, 10) + "0";
  }

  lemma Base36Of108()
    ensures Base36Tail(108, 2) == "30"
  {
    assert Numeral(3, 36) == "3";
  }
}
