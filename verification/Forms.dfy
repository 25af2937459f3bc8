/** What a synthesized text looks like (internal/hydrate/engine.go): the form its hint names, or
    a literal of its column's type. */
module Forms {
  import opened Columns
  import opened Digits
  import opened Holders
  import opened Numbers
  import opened Rendering
  import opened Text
  import opened Values
  import opened Wrappers

  // ----- the forms -----

  predicate HexRun(s: string, k: nat) {
    |s| == k && AllDigits(s, 16)
  }

  function Hyphenated(a: string, b: string, c: string, d: string, e: string): string {
    a + "-" + b + "-" + c + "-" + d + "-" + e
  }

  /** The text form of RFC 4122, section 3. */
  ghost predicate IsUuid(s: string) {
    exists a, b, c, d, e :: s == Hyphenated(a, b, c, d, e) && HexRun(a, 8) && HexRun(b, 4) && HexRun(c, 4)
                            && HexRun(d, 4) && HexRun(e, 12)
  }

  /** One "@" between a name and a domain under ".invalid", which RFC 2606 reserves. */
  ghost predicate IsEmail(s: string) {
    exists name, domain :: s == Mailbox(name, domain) && name != "" && '@' !in name && '@' !in domain
                           && IsReserved(domain)
  }

  function Mailbox(name: string, domain: string): string {
    name + "@" + domain
  }

  /** A domain name under ".invalid": letters, digits, hyphens and dots. */
  predicate IsReserved(domain: string) {
    |domain| > 8 && HasSuffix(domain, ".invalid")
    && forall i :: 0 <= i < |domain| ==> CharDigit(domain[i]) < 36 || domain[i] == '-' || domain[i] == '.'
  }

  /** "https", a domain under ".invalid", and a path. */
  ghost predicate IsUrl(s: string) {
    exists domain, path :: s == Located(domain, path) && IsReserved(domain) && path != "" && AllDigits(path, 36)
  }

  function Located(domain: string, path: string): string {
    "https://" + domain + "/" + path
  }

  /** An address of 192.0.2.0/24, which RFC 5737 reserves for documentation. */
  ghost predicate IsAddress(s: string) {
    exists k: nat :: k < 256 && s == "192.0.2." + Numeral(k, 10)
  }

  /** Pairs of hexadecimal digits with colons between them. */
  predicate IsMac(s: string, pairs: nat) {
    && |s| == 3 * pairs - 1
    && forall i :: 0 <= i < |s| ==> if i % 3 == 2 then s[i] == ':' else CharDigit(s[i]) < 16
  }

  /** Lower-case letters, digits and hyphens. */
  predicate IsSlug(s: string) {
    s != "" && forall i :: 0 <= i < |s| ==> CharDigit(s[i]) < 36 || s[i] == '-'
  }

  // ----- digits -----

  lemma {:induction false} ZerosLow(k: nat, b: nat)
    requires b > 0
    ensures AllDigits(Zeros(k), b)
  {
    if k > 0 {
      ZerosLow(k - 1, b);
    }
  }

  lemma PaddedDigits(n: nat, b: nat, pad: nat)
    requires 2 <= b <= 36
    ensures Padded(n, b, pad) != "" && AllDigits(Padded(n, b, pad), b)
  {
    if |Numeral(n, b)| < pad {
      ZerosLow(pad - |Numeral(n, b)|, b);
    }
  }

  lemma PaddedRun(n: nat, pad: nat)
    requires 0 < pad && n < Power(10, pad)
    ensures |Padded(n, 10, pad)| == pad && AllDigits(Padded(n, 10, pad), 10)
  {
    NumeralLength(n, 10, pad);
    PaddedDigits(n, 10, pad);
  }

  // ----- hinted texts -----

  lemma MailboxForm(name: string, domain: string)
    requires name != "" && '@' !in name && '@' !in domain && IsReserved(domain)
    ensures IsEmail(Mailbox(name, domain))
  {
  }

  lemma ReservedDomain()
    ensures IsReserved("example.invalid") && '@' !in "example.invalid"
  {
    var domain := "example.invalid";
    assert domain[|domain| - 8..] == ".invalid";
  }

  lemma UserName(digits: string)
    requires AllDigits(digits, 10)
    ensures '@' !in "user_" + digits
  {
    assert '@' !in "user_";
    assert CharDigit('@') >= 10;
  }

  lemma EmailForm(n: nat)
    ensures IsEmail(Fill(Template("user_", 5, "@example.invalid"), n))
  {
    PaddedDigits(n, 10, 5);
    UserName(Padded(n, 10, 5));
    ReservedDomain();
    MailboxForm("user_" + Padded(n, 10, 5), "example.invalid");
    assert "@example.invalid" == "@" + "example.invalid";
    assert Fill(Template("user_", 5, "@example.invalid"), n) == Mailbox("user_" + Padded(n, 10, 5), "example.invalid");
  }

  lemma UuidHead(e: string)
    ensures "00000000-0000-4000-8000-" + e == Hyphenated("00000000", "0000", "4000", "8000", e)
  {
    assert "00000000-0000-4000-8000-" == "00000000" + "-" + "0000" + "-" + "4000" + "-" + "8000" + "-";
  }

  lemma UuidGroups()
    ensures HexRun("00000000", 8) && HexRun("0000", 4) && HexRun("4000", 4) && HexRun("8000", 4)
  {
  }

  lemma UuidForm(n: nat)
    requires n < Power(10, 12)
    ensures IsUuid(Fill(Template("00000000-0000-4000-8000-", 12, ""), n))
  {
    PaddedRun(n, 12);
    var e := Padded(n, 10, 12);
    UuidGroups();
    UuidHead(e);
    Grouped("00000000", "0000", "4000", "8000", e);
    assert "00000000-0000-4000-8000-" + e + "" == "00000000-0000-4000-8000-" + e;
  }

  lemma Grouped(a: string, b: string, c: string, d: string, e: string)
    requires HexRun(a, 8) && HexRun(b, 4) && HexRun(c, 4) && HexRun(d, 4) && HexRun(e, 12)
    ensures IsUuid(Hyphenated(a, b, c, d, e))
  {
  }

  lemma UrlForm(n: nat)
    ensures IsUrl(Fill(Template("https://example.invalid/", 0, ""), n))
  {
    var domain := "example.invalid";
    assert domain[|domain| - 8..] == ".invalid";
    assert "https://example.invalid/" == "https://" + domain + "/";
    assert Fill(Template("https://example.invalid/", 0, ""), n) == Located(domain, Numeral(n, 10));
  }

  lemma HostForm(n: nat)
    ensures IsReserved(Fill(Template("host-", 0, ".example.invalid"), n))
  {
    var s, suffix := Fill(Template("host-", 0, ".example.invalid"), n), ".example.invalid";
    assert suffix[|suffix| - 8..] == ".invalid";
    assert s[|s| - 8..] == suffix[|suffix| - 8..];
  }

  lemma SlugForm(n: nat)
    ensures IsSlug(Fill(Template("slug-", 0, ""), n))
  {
    var s := Fill(Template("slug-", 0, ""), n);
    assert s[0] == 's' && s[1] == 'l' && s[2] == 'u' && s[3] == 'g' && s[4] == '-';
  }

  /** A text that its column's width leaves whole has the form that its hint names. */
  lemma HintedForm(lib: Library, c: Column, n: nat, unique: bool)
    requires c.format != NoFormat && n < Power(10, 12)
    ensures RawFakeValue(lib, c, n, unique).Text?
    ensures var s := RawFakeValue(lib, c, n, unique).s;
            && (c.format == Email ==> IsEmail(s)) && (c.format == UuidText ==> IsUuid(s))
            && (c.format == Url ==> IsUrl(s)) && (c.format == Hostname ==> IsReserved(s))
            && (c.format == Slug ==> IsSlug(s)) && (c.format == Ipv4 ==> IsAddress(s))
            && (c.format == NumericString ==> s == Numeral(n, 10)) && (c.format == JsonShape ==> s == "{}")
            && (c.format == EnumLike && c.values != [] ==> s in c.values)
  {
    match c.format
    case Email => EmailForm(n);
    case UuidText => UuidForm(n);
    case Url => UrlForm(n);
    case Hostname => HostForm(n);
    case Slug => SlugForm(n);
    case NumericString => assert "" + Numeral(n, 10) + "" == Numeral(n, 10);
    case _ =>
  }

  // ----- literals of a type -----

  lemma HexPair(n: nat)
    ensures |HexByte(n)| == 2 && CharDigit(HexByte(n)[0]) < 16 && CharDigit(HexByte(n)[1]) < 16
  {
    HexByteIff(n, n);
    PaddedDigits(n % 256, 16, 2);
  }

  lemma OneMore(s: string, pairs: nat, pair: string)
    requires pairs > 0 && IsMac(s, pairs)
    requires |pair| == 2 && CharDigit(pair[0]) < 16 && CharDigit(pair[1]) < 16
    ensures IsMac(s + ":" + pair, pairs + 1)
  {
  }

  lemma {:induction false} BytesForm(n: nat, k: nat)
    ensures IsMac(HexBytes(n, k), k + 1)
  {
    HexPair(n);
    if k > 0 {
      BytesForm(n / 256, k - 1);
      OneMore(HexBytes(n / 256, k - 1), k, HexByte(n));
    }
  }

  lemma PrefixedForm(s: string, pairs: nat)
    requires IsMac(s, pairs) && pairs > 0
    ensures IsMac("08:00:2b:" + s, pairs + 3)
  {
    var p := "08:00:2b:";
    assert CharDigit(p[0]) < 16 && CharDigit(p[1]) < 16 && p[2] == ':' && CharDigit(p[3]) < 16 && CharDigit(p[4]) < 16;
    assert p[5] == ':' && CharDigit(p[6]) < 16 && CharDigit(p[7]) < 16 && p[8] == ':';
    forall i | 9 <= i < |p + s|
      ensures (p + s)[i] == s[i - 9] && i % 3 == (i - 9) % 3
    {
    }
  }

  /** A bit string is the binary numeral of the ordinal's last bits. */
  lemma {:induction false} BitsValue(n: nat, width: nat)
    ensures AllDigits(BitLiteral(n, width), 2) && ValueOf(BitLiteral(n, width), 2) == n % Power(2, width)
  {
    if width > 0 {
      BitsStep(n, width);
      BitsValue(n / 2, width - 1);
      ModStep(n, 2, Power(2, width - 1));
      ValueMore(BitLiteral(n / 2, width - 1), LastBit(n), 2);
    }
  }

  /** An unhinted value is a literal of its type's category. */
  lemma LiteralForm(lib: Library, k: Category, c: Column, n: nat, unique: bool)
    requires CategoryTemplate(k).None? && !k.Array?
    ensures var v := ScalarValue(lib, k, c, n, unique);
            match k
            case Inet => v.Text? && IsAddress(v.s)
            case Macaddr => v.Text? && IsMac(v.s, 6)
            case Macaddr8 => v.Text? && IsMac(v.s, 8)
            case Bit => v.Text? && |v.s| == BitWidth(c) && AllDigits(v.s, 2)
                        && ValueOf(v.s, 2) == n % Power(2, BitWidth(c))
            case Json => v == Text("{}")
            case Point => v == Text("(" + Numeral(n, 10) + "," + Numeral(n, 10) + ")")
            case Boolean => v == Bool(n % 2 == 0)
            case Numeric => v.Int?
            case Temporal => v.Time?
            case _ => v.Bytes?
  {
    match k
    case Macaddr =>
      MacIs(n);
      BytesForm(n, 2);
      PrefixedForm(HexBytes(n, 2), 3);
    case Macaddr8 =>
      LongMacIs(n);
      BytesForm(n, 4);
      PrefixedForm(HexBytes(n, 4), 5);
    case Bit => BitsValue(n, BitWidth(c));
    case _ =>
  }

  /** And where the category fills a template: a UUID, an interval in seconds, or an element. */
  lemma TemplateForm(k: Category, n: nat)
    requires CategoryTemplate(k).Some? && n < Power(10, 12)
    ensures var s := Fill(CategoryTemplate(k).value, n);
            match k
            case Uuid => IsUuid(s)
            case Interval => s == Numeral(n, 10) + " seconds"
            case Xml => s == "<value>" + Numeral(n, 10) + "</value>"
            case _ => s != ""
  {
    match k
    case Uuid => UuidForm(n);
    case Interval => assert "" + Numeral(n, 10) == Numeral(n, 10);
    case _ =>
  }

  // ----- text cut to a width -----

  /** Text too long for a column that is not unique fills the width: its own beginning, then the
      ordinal's base-36 digits. */
  lemma SharedTextCut(width: nat, n: nat, s: string)
    requires 0 < width < |s|
    ensures var r, tail := FitText(width, n, s, false), Base36Tail(n, width);
            && |r| == width && 0 < |tail| <= width && r[width - |tail|..] == tail
            && r[..width - |tail|] == s[..width - |tail|]
  {
  }
}
