/** Which ordinals of a unique column are rendered alike (internal/hydrate/engine.go): every
    ordinal has a first one that its value belongs to. */
module Holders {
  import opened Columns
  import opened Digits
  import opened Numbers
  import opened Rendering
  import opened Values
  import opened Wrappers

  // ----- before any width clamp -----

  /** An array's text depends on Go's rendering of its element, which is a parameter. */
  predicate IsArray(c: Column) {
    c.format == NoFormat && Categorize(c.typ).Array?
  }

  predicate Labelled(c: Column) {
    c.format == EnumLike && c.values != []
  }

  /** The hours that wrap around int64 nanoseconds: 2^51 of them. */
  const HOURS: nat := 0x8_0000_0000_0000

  /** After how many ordinals a timestamp column starts over. */
  function TimeCycle(lib: Library, c: Column): (p: nat)
    ensures p > 0
  {
    if c.range.Some? && lib.toTime(c.range.value.min).Some? then
      var lo, hi := lib.toTime(c.range.value.min).value, lib.toTime(c.range.value.max);
      if hi.Some? && hi.value > lo then Clamp(hi.value - lo, MIN_INT64, MAX_INT64) else 1
    else HOURS
  }

  function CategoryCycle(lib: Library, c: Column, k: Category): Option<nat> {
    match k
    case Inet => Some(0x100)
    case Macaddr => Some(0x100_0000)
    case Macaddr8 => Some(0x100_0000_0000)
    case Bit => Some(Power(2, BitWidth(c)))
    case Json => Some(1)
    case Boolean => Some(2)
    case Temporal => Some(TimeCycle(lib, c))
    case _ => None
  }

  /** After how many ordinals a column's values start over; None if they never do. */
  function Cycle(lib: Library, c: Column): (p: Option<nat>)
    ensures p.Some? ==> p.value > 0
  {
    if TemplateOf(c).Some? then None
    else
      match c.format
      case NoFormat => CategoryCycle(lib, c, Categorize(c.typ))
      case Ipv4 => Some(0x100)
      case EnumLike => Some(|c.values|)
      case _ => Some(1)
  }

  function FirstIndex(xs: seq<string>, x: string): (i: nat)
    requires x in xs
    ensures i < |xs| && xs[i] == x && x !in xs[..i]
  {
    if xs[0] == x then 0
    else
      var i := 1 + FirstIndex(xs[1..], x);
      assert forall k :: 0 < k < i ==> xs[k] == xs[1..][k - 1] == xs[1..][..i - 1][k - 1];
      i
  }

  /** The first ordinal with the value of n, leaving widths aside. */
  function RawHolder(lib: Library, c: Column, n: nat): nat {
    if Labelled(c) then FirstIndex(c.values, c.values[n % |c.values|])
    else if Cycle(lib, c).Some? then n % Cycle(lib, c).value
    else n
  }

  lemma RawHolderIff(lib: Library, c: Column, n: nat, m: nat)
    requires !IsArray(c) && n <= MAX_INT64 && m <= MAX_INT64
    ensures RawFakeValue(lib, c, n, true) == RawFakeValue(lib, c, m, true)
            <==> RawHolder(lib, c, n) == RawHolder(lib, c, m)
  {
    if TemplateOf(c).Some? {
      TemplateHolderIff(lib, c, n, m);
    } else if c.format != NoFormat {
      HintedHolderIff(lib, c, n, m);
    } else {
      ScalarHolderIff(lib, c, n, m);
    }
  }

  lemma TemplateHolderIff(lib: Library, c: Column, n: nat, m: nat)
    requires TemplateOf(c).Some?
    ensures RawFakeValue(lib, c, n, true) == RawFakeValue(lib, c, m, true) <==> n == m
    ensures RawHolder(lib, c, n) == n && RawHolder(lib, c, m) == m
  {
    if RawFakeValue(lib, c, n, true) == RawFakeValue(lib, c, m, true) {
      FillInjective(TemplateOf(c).value, n, m);
    }
  }

  lemma HintedHolderIff(lib: Library, c: Column, n: nat, m: nat)
    requires TemplateOf(c).None? && c.format != NoFormat
    ensures RawFakeValue(lib, c, n, true) == RawFakeValue(lib, c, m, true)
            <==> RawHolder(lib, c, n) == RawHolder(lib, c, m)
  {
    if c.format == Ipv4 {
      AddressIff(n, m);
    }
  }

  /** The values of a type category that is neither a template nor an array. */
  lemma ScalarHolderIff(lib: Library, c: Column, n: nat, m: nat)
    requires TemplateOf(c).None? && c.format == NoFormat && !Categorize(c.typ).Array?
    requires n <= MAX_INT64 && m <= MAX_INT64
    ensures RawFakeValue(lib, c, n, true) == RawFakeValue(lib, c, m, true)
            <==> RawHolder(lib, c, n) == RawHolder(lib, c, m)
  {
    CategoryHolderIff(lib, c, Categorize(c.typ), n, m);
  }

  /** The ordinals have the same place in the cycle. */
  predicate SamePlace(cycle: Option<nat>, n: nat, m: nat) {
    if cycle.None? then n == m else cycle.value > 0 && n % cycle.value == m % cycle.value
  }

  lemma CategoryHolderIff(lib: Library, c: Column, k: Category, n: nat, m: nat)
    requires CategoryTemplate(k).None? && !k.Array? && n <= MAX_INT64 && m <= MAX_INT64
    ensures ScalarValue(lib, k, c, n, true) == ScalarValue(lib, k, c, m, true)
            <==> SamePlace(CategoryCycle(lib, c, k), n, m)
  {
    match k
    case Inet => AddressIff(n, m);
    case Macaddr => MacIff(n, m);
    case Macaddr8 => LongMacIff(n, m);
    case Bit => BitsIff(n, m, BitWidth(c));
    case Point => PointIff(n, m);
    case Json =>
    case Numeric => NumberIff(c, n, m);
    case Temporal => TimeIff(lib, c, n, m);
    case Boolean =>
    case _ => BytesIff(n, m);
  }

  lemma NumeralIff(n: nat, m: nat, b: nat)
    requires 2 <= b <= 36
    ensures Numeral(n, b) == Numeral(m, b) <==> n == m
  {
    NumeralValue(n, b);
    NumeralValue(m, b);
  }

  lemma AddressIff(n: nat, m: nat)
    ensures "192.0.2." + Numeral(n % 256, 10) == "192.0.2." + Numeral(m % 256, 10) <==> n % 256 == m % 256
  {
    var x, y := "192.0.2." + Numeral(n % 256, 10), "192.0.2." + Numeral(m % 256, 10);
    assert x[8..] == Numeral(n % 256, 10) && y[8..] == Numeral(m % 256, 10);
    NumeralIff(n % 256, m % 256, 10);
  }

  /** One place of a positional number. */
  lemma ModStep(n: nat, b: nat, p: nat)
    requires b > 0 && p > 0 && b * p > 0
    ensures n % (b * p) == b * (n / b % p) + n % b
  {
    Division(n, b);
    Division(n / b, p);
    ModOf(n, b, p, n / b, n % b, n / b / p, n / b % p);
  }

  lemma ModOf(n: nat, b: nat, p: nat, q: nat, r: nat, s: nat, t: nat)
    requires n == b * q + r && q == p * s + t && r < b && t < p && b * p > 0
    ensures n % (b * p) == b * t + r
  {
    Distributed(b, p * s, t);
    Associated(b, p, s);
    OneMore(b, t, r, p);
    Quotient(n, s, b * t + r, b * p);
  }

  lemma Distributed(b: int, x: int, y: int)
    ensures b * (x + y) == b * x + b * y
  {
  }

  lemma Associated(b: int, p: int, s: int)
    ensures b * (p * s) == (b * p) * s
  {
  }

  /** Two numbers agree in their last places exactly when they do in the last one and in those before. */
  lemma PlacesIff(n: nat, m: nat, b: nat, p: nat)
    requires b > 0 && p > 0 && b * p > 0
    ensures n % (b * p) == m % (b * p) <==> n % b == m % b && n / b % p == m / b % p
  {
    ModStep(n, b, p);
    ModStep(m, b, p);
    if n % (b * p) == m % (b * p) {
      Quotient(n % (b * p), n / b % p, n % b, b);
      Quotient(m % (b * p), m / b % p, m % b, b);
    }
  }

  // ----- bytes in hexadecimal -----

  lemma HexByteIff(n: nat, m: nat)
    ensures |HexByte(n)| == 2 && |HexByte(m)| == 2
    ensures HexByte(n) == HexByte(m) <==> n % 256 == m % 256
  {
    assert Power(16, 2) == 16 * (16 * Power(16, 0));
    NumeralLength(n % 256, 16, 2);
    NumeralLength(m % 256, 16, 2);
    PaddedValue(n % 256, 16, 2);
    PaddedValue(m % 256, 16, 2);
  }

  /** The last k + 1 bytes of n, separated by colons. */
  function HexBytes(n: nat, k: nat): (s: string)
    ensures |s| == 3 * k + 2
  {
    HexByteIff(n, n);
    if k == 0 then HexByte(n) else HexBytes(n / 256, k - 1) + ":" + HexByte(n)
  }

  lemma {:induction false} HexBytesIff(n: nat, m: nat, k: nat)
    ensures HexBytes(n, k) == HexBytes(m, k) <==> n % Power(256, k + 1) == m % Power(256, k + 1)
  {
    HexByteIff(n, m);
    if k == 0 {
      assert Power(256, 1) == 256 * Power(256, 0);
    } else {
      HexBytesIff(n / 256, m / 256, k - 1);
      PlacesIff(n, m, 256, Power(256, k));
      LastByte(HexBytes(n / 256, k - 1), HexByte(n));
      LastByte(HexBytes(m / 256, k - 1), HexByte(m));
    }
  }

  lemma LastByte(s: string, t: string)
    ensures (s + ":" + t)[..|s|] == s && (s + ":" + t)[|s| + 1..] == t
  {
  }

  lemma PrefixIff(p: string, s: string, t: string)
    ensures p + s == p + t <==> s == t
  {
    assert (p + s)[|p|..] == s && (p + t)[|p|..] == t;
  }

  lemma MacIs(n: nat)
    ensures "08:00:2b:" + HexByte(n / 0x1_0000) + ":" + HexByte(n / 0x100) + ":" + HexByte(n)
            == "08:00:2b:" + HexBytes(n, 2)
  {
    TwoBytesOn(n / 0x100);
    assert n / 0x100 / 0x100 == n / 0x1_0000;
    Joined("08:00:2b:", HexByte(n / 0x1_0000), HexByte(n / 0x100), HexByte(n));
  }

  lemma TwoBytesOn(n: nat)
    ensures HexBytes(n, 1) == HexByte(n / 0x100) + ":" + HexByte(n)
  {
    assert HexBytes(n / 0x100, 0) == HexByte(n / 0x100);
  }

  lemma Joined(p: string, a: string, b: string, c: string)
    ensures p + a + ":" + b + ":" + c == p + (a + ":" + b + ":" + c)
  {
  }

  lemma MacIff(n: nat, m: nat)
    ensures "08:00:2b:" + HexByte(n / 0x1_0000) + ":" + HexByte(n / 0x100) + ":" + HexByte(n)
            == "08:00:2b:" + HexByte(m / 0x1_0000) + ":" + HexByte(m / 0x100) + ":" + HexByte(m)
            <==> n % 0x100_0000 == m % 0x100_0000
  {
    MacIs(n);
    MacIs(m);
    PrefixIff("08:00:2b:", HexBytes(n, 2), HexBytes(m, 2));
    HexBytesIff(n, m, 2);
    BytePowers();
  }

  lemma BytePowers()
    ensures Power(256, 3) == 0x100_0000 && Power(256, 5) == 0x100_0000_0000
  {
    assert Power(256, 2) == 256 * (256 * Power(256, 0));
    assert Power(256, 4) == 256 * Power(256, 3);
  }

  lemma LongMacIs(n: nat)
    ensures "08:00:2b:" + HexByte(n / 0x1_0000_0000) + ":" + HexByte(n / 0x100_0000) + ":" + HexByte(n / 0x1_0000)
            + ":" + HexByte(n / 0x100) + ":" + HexByte(n)
            == "08:00:2b:" + HexBytes(n, 4)
  {
    var p, a, b, c := "08:00:2b:", HexByte(n / 0x1_0000_0000), HexByte(n / 0x100_0000), HexByte(n / 0x1_0000);
    var d, e := HexByte(n / 0x100), HexByte(n);
    assert n / 0x100 / 0x100 == n / 0x1_0000 && n / 0x1_0000 / 0x100 == n / 0x100_0000;
    assert n / 0x100_0000 / 0x100 == n / 0x1_0000_0000;
    TwoBytesOn(n / 0x100_0000);
    assert HexBytes(n / 0x1_0000, 2) == HexBytes(n / 0x100_0000, 1) + ":" + c;
    assert HexBytes(n / 0x100, 3) == HexBytes(n / 0x1_0000, 2) + ":" + d;
    assert HexBytes(n, 4) == HexBytes(n / 0x100, 3) + ":" + e;
    Joined(p, a, b, c);
    JoinedTwo(p, a + ":" + b + ":" + c, d, e);
  }

  lemma JoinedTwo(p: string, s: string, d: string, e: string)
    ensures (p + s) + ":" + d + ":" + e == p + (s + ":" + d + ":" + e)
  {
  }

  lemma LongMacIff(n: nat, m: nat)
    ensures "08:00:2b:" + HexByte(n / 0x1_0000_0000) + ":" + HexByte(n / 0x100_0000) + ":" + HexByte(n / 0x1_0000)
            + ":" + HexByte(n / 0x100) + ":" + HexByte(n)
            == "08:00:2b:" + HexByte(m / 0x1_0000_0000) + ":" + HexByte(m / 0x100_0000) + ":" + HexByte(m / 0x1_0000)
               + ":" + HexByte(m / 0x100) + ":" + HexByte(m)
            <==> n % 0x100_0000_0000 == m % 0x100_0000_0000
  {
    LongMacIs(n);
    LongMacIs(m);
    PrefixIff("08:00:2b:", HexBytes(n, 4), HexBytes(m, 4));
    HexBytesIff(n, m, 4);
    BytePowers();
  }

  // ----- bits -----

  function LastBit(n: nat): char {
    if n % 2 == 1 then '1' else '0'
  }

  lemma BitsStep(n: nat, width: nat)
    requires width > 0
    ensures BitLiteral(n, width) == BitLiteral(n / 2, width - 1) + [LastBit(n)]
  {
    forall i: nat | i < width - 1
      ensures BitLiteral(n, width)[i] == BitLiteral(n / 2, width - 1)[i]
    {
      HalfFirst(n, Power(2, width - 2 - i));
      assert Power(2, width - 1 - i) == 2 * Power(2, width - 2 - i);
    }
    assert Power(2, 0) == 1;
  }

  lemma HalfFirst(n: nat, p: nat)
    requires p > 0
    ensures n / (2 * p) == n / 2 / p
  {
    Division(n, 2);
    Division(n / 2, p);
    Quotient(n, n / 2 / p, 2 * (n / 2 % p) + n % 2, 2 * p);
  }

  lemma {:induction false} BitsIff(n: nat, m: nat, width: nat)
    ensures BitLiteral(n, width) == BitLiteral(m, width) <==> n % Power(2, width) == m % Power(2, width)
  {
    if width > 0 {
      BitsStep(n, width);
      BitsStep(m, width);
      BitsIff(n / 2, m / 2, width - 1);
      PlacesIff(n, m, 2, Power(2, width - 1));
      LastCharIff(BitLiteral(n / 2, width - 1), BitLiteral(m / 2, width - 1), LastBit(n), LastBit(m));
    }
  }

  lemma LastCharIff(s: string, t: string, c: char, d: char)
    requires |s| == |t|
    ensures s + [c] == t + [d] <==> s == t && c == d
  {
    assert (s + [c])[..|s|] == s && (t + [d])[..|t|] == t;
    assert (s + [c])[|s|] == c && (t + [d])[|t|] == d;
  }

  lemma PointIff(n: nat, m: nat)
    ensures "(" + Numeral(n, 10) + "," + Numeral(n, 10) + ")" == "(" + Numeral(m, 10) + "," + Numeral(m, 10) + ")"
            <==> n == m
  {
    PairIff(Numeral(n, 10), Numeral(m, 10));
    NumeralIff(n, m, 10);
  }

  lemma PairIff(s: string, t: string)
    ensures "(" + s + "," + s + ")" == "(" + t + "," + t + ")" <==> s == t
  {
    var x, y := "(" + s + "," + s + ")", "(" + t + "," + t + ")";
    assert |x| == 3 + 2 * |s| && x[1..1 + |s|] == s;
    assert |y| == 3 + 2 * |t| && y[1..1 + |t|] == t;
  }

  lemma NumberIff(c: Column, n: nat, m: nat)
    requires n <= MAX_INT64 && m <= MAX_INT64
    ensures NumericInRange(c, n, true) == NumericInRange(c, m, true) <==> n == m
  {
    if NumericBounds(c).Some? {
      WrapIff(NumericBounds(c).value.0, n, m);
    }
  }

  lemma WrapIff(lo: int, n: nat, m: nat)
    requires n <= MAX_INT64 && m <= MAX_INT64
    ensures Wrap(lo + n) == Wrap(lo + m) <==> n == m
  {
  }

  lemma BytesIff(n: nat, m: nat)
    ensures "\\x" + Padded(n, 16, 8) == "\\x" + Padded(m, 16, 8) <==> n == m
  {
    var x, y := "\\x" + Padded(n, 16, 8), "\\x" + Padded(m, 16, 8);
    assert x[2..] == Padded(n, 16, 8) && y[2..] == Padded(m, 16, 8);
    PaddedValue(n, 16, 8);
    PaddedValue(m, 16, 8);
  }

  // ----- timestamps -----

  lemma TimeIff(lib: Library, c: Column, n: nat, m: nat)
    requires n <= MAX_INT64 && m <= MAX_INT64
    ensures TemporalInRange(lib, c, n) == TemporalInRange(lib, c, m)
            <==> n % TimeCycle(lib, c) == m % TimeCycle(lib, c)
  {
    if !(c.range.Some? && lib.toTime(c.range.value.min).Some?) {
      HoursIff(n, m);
    }
  }

  lemma WrapsAlike(x: int, y: int) returns (j: int)
    requires Wrap(x) == Wrap(y)
    ensures x == y + TWO_64 * j
  {
    j := (x + TWO_63) / TWO_64 - (y + TWO_63) / TWO_64;
  }

  lemma WrapShifted(x: int, j: int)
    ensures Wrap(x + TWO_64 * j) == Wrap(x)
  {
    var k := (x + TWO_63) / TWO_64;
    assert x + TWO_64 * j + TWO_63 == TWO_64 * (k + j) + (x + TWO_63) % TWO_64;
  }

  /** An hour is 2^13 times an odd number of nanoseconds, and INVERSE undoes that number modulo HOURS. */
  const ODD: nat := 439453125
  const INVERSE: nat := 1450916808208653

  lemma HoursIff(n: nat, m: nat)
    ensures Wrap(n * HOUR) == Wrap(m * HOUR) <==> n % HOURS == m % HOURS
  {
    if Wrap(n * HOUR) == Wrap(m * HOUR) {
      var j := WrapsAlike(n * HOUR, m * HOUR);
      assert ODD * (n - m) == HOURS * j;
      assert ODD * INVERSE == 1 + 283155688 * HOURS;
      var e := INVERSE * j - 283155688 * (n - m);
      assert n - m == HOURS * e;
      SameRemainder(n, m, HOURS, e);
    } else if n % HOURS == m % HOURS {
      Division(n, HOURS);
      Division(m, HOURS);
      var e := n / HOURS - m / HOURS;
      WrapShifted(m * HOUR, ODD * e);
    }
  }

  lemma SameRemainder(n: nat, m: nat, b: nat, e: int)
    requires b > 0 && n - m == b * e
    ensures n % b == m % b
  {
    Division(n, b);
    Division(m, b);
    var d := n / b - m / b - e;
    assert b * d == m % b - n % b && b * -d == n % b - m % b;
    if d > 0 {
      AtLeastFactor(b, d);
    } else if d < 0 {
      AtLeastFactor(b, -d);
    }
  }

  // ----- base-36 text of a given width -----

  lemma {:induction false} ValueBelow(s: string, b: nat)
    requires AllDigits(s, b)
    ensures ValueOf(s, b) < Power(b, |s|)
  {
    if s != "" {
      var t := s[..|s| - 1];
      ValueBelow(t, b);
      OneMore(b, ValueOf(t, b), CharDigit(s[|t|]), Power(b, |t|));
    }
  }

  lemma OneMore(b: nat, v: nat, d: nat, p: nat)
    requires d < b && v < p
    ensures b * v + d < b * p
  {
    ProductGrows(b, v + 1, b, p);
  }

  lemma {:induction false} SameValueSameText(s: string, t: string, b: nat)
    requires 2 <= b <= 36 && |s| == |t| && AllDigits(s, b) && AllDigits(t, b) && ValueOf(s, b) == ValueOf(t, b)
    ensures s == t
  {
    if s != "" {
      var n := |s| - 1;
      Quotient(ValueOf(s, b), ValueOf(s[..n], b), CharDigit(s[n]), b);
      Quotient(ValueOf(t, b), ValueOf(t[..n], b), CharDigit(t[n]), b);
      SameValueSameText(s[..n], t[..n], b);
      CharRead(s[n]);
      CharRead(t[n]);
      assert s == s[..n] + [s[n]] && t == t[..n] + [t[n]];
    }
  }

  lemma LongNumeral(n: nat, width: nat, b: nat)
    requires 2 <= b <= 36 && n >= Power(b, width)
    ensures |Numeral(n, b)| > width
  {
    NumeralValue(n, b);
    ValueBelow(Numeral(n, b), b);
    if |Numeral(n, b)| <= width {
      PowerRises(b, |Numeral(n, b)|, width);
    }
  }

  lemma {:induction false} PowerRises(b: nat, i: nat, j: nat)
    requires b > 0 && i <= j
    ensures Power(b, i) <= Power(b, j)
  {
    if i < j {
      PowerRises(b, i, j - 1);
      AtLeastFactor(Power(b, j - 1), b);
    }
  }

  /** Past 36^width, the tail has the full width and stands for n modulo 36^width. */
  lemma {:induction false} TailValue(n: nat, width: nat)
    requires n >= Power(36, width)
    ensures |Base36Tail(n, width)| == width && ValueOf(Base36Tail(n, width), 36) == n % Power(36, width)
  {
    if width > 0 {
      LongNumeral(n, width, 36);
      ModStep(n, 36, Power(36, width - 1));
      QuotientAtLeast(n, 36, Power(36, width - 1));
      TailValue(n / 36, width - 1);
      LongNumeral(n / 36, width - 1, 36);
      TailStep(n, width);
    }
  }

  lemma QuotientAtLeast(n: nat, b: nat, p: nat)
    requires b > 0 && n >= b * p
    ensures n / b >= p
  {
    if n / b < p {
      Division(n, b);
      ProductGrows(b, n / b + 1, b, p);
    }
  }

  lemma TailStep(n: nat, width: nat)
    requires width > 0 && n >= 36 && |Numeral(n, 36)| > width && |Numeral(n / 36, 36)| > width - 1
    requires |Base36Tail(n / 36, width - 1)| == width - 1
    ensures ValueOf(Base36Tail(n, width), 36) == 36 * ValueOf(Base36Tail(n / 36, width - 1), 36) + n % 36
    ensures |Base36Tail(n, width)| == width
  {
    Division(n, 36);
    NumeralMore(n, n / 36, n % 36, 36);
    TailMore(n, n / 36, DigitChar(n % 36), width);
    DigitRead(n % 36);
    ValueMore(Base36Tail(n / 36, width - 1), DigitChar(n % 36), 36);
  }

  lemma TailMore(n: nat, m: nat, d: char, width: nat)
    requires width > 0 && Numeral(n, 36) == Numeral(m, 36) + [d] && |Numeral(m, 36)| >= width
    ensures Base36Tail(n, width) == Base36Tail(m, width - 1) + [d]
  {
    CutAt(n, Numeral(n, 36), width);
    CutAt(m, Numeral(m, 36), width - 1);
    LastOf(Numeral(n, 36), Numeral(m, 36), d, width);
  }

  lemma CutAt(n: nat, s: string, width: nat)
    requires s == Numeral(n, 36) && |s| >= width
    ensures Base36Tail(n, width) == s[|s| - width..]
  {
  }

  lemma LastOf(s: string, q: string, d: char, width: nat)
    requires s == q + [d] && 0 < width <= |q|
    ensures s[|s| - width..] == q[|q| - (width - 1)..] + [d]
  {
  }

  lemma ShortTail(n: nat, width: nat)
    requires width > 0 && n < Power(36, width)
    ensures Base36Tail(n, width) == Numeral(n, 36)
  {
    NumeralLength(n, 36, width);
  }

  // ----- under a width -----

  /** The value of n is text too long for the column. */
  predicate Cut(lib: Library, c: Column, n: nat) {
    && RawFakeValue(lib, c, n, true).Text? && EffectiveWidth(c).Some?
    && |RawFakeValue(lib, c, n, true).s| > EffectiveWidth(c).value
  }

  /** The first ordinal whose value is the tail of n: for plain digits the one that has the
      tail as its own digits, and otherwise the first text cut to that tail. */
  function CutHolder(c: Column, n: nat, width: nat): nat {
    var tail, p := Base36Tail(n, width), Power(36, width);
    if c.format == NumericString && Written(tail, 10) then ValueOf(tail, 10)
    else if n < p then n
    else if |Numeral(n % p, 36)| == width && (c.format == NumericString ==> |Numeral(n % p, 10)| > width) then n % p
    else n % p + p
  }

  // ----- arrays, and labels too long for the column -----

  /** The columns whose values come by a rule of their own length: no array, and no label too
      long for the column. */
  predicate Regular(c: Column) {
    !IsArray(c) && LabelsFit(c)
  }

  function Label(c: Column, n: nat): string
    requires Labelled(c)
  {
    c.values[n % |c.values|]
  }

  /** What Go renders of the one element of an array. */
  function ElementText(lib: Library, c: Column, n: nat): string {
    lib.show(RawFakeValue(lib, ElementColumn(c), n, true))
  }

  /** The text is the tail of n: its base-36 digits, or, past 36^width, the last of them. */
  predicate IsTail(s: string, n: nat, width: nat) {
    if n < Power(36, width) then Written(s, 36) && ValueOf(s, 36) == n
    else |s| == width && AllDigits(s, 36) && ValueOf(s, 36) == n % Power(36, width)
  }

  /** When two ordinals of such a column meet: both fit and are one label or one element, both
      are cut to one tail, or the label of one is the tail of the other. */
  predicate Meet(lib: Library, c: Column, n: nat, m: nat)
    requires !Regular(c)
  {
    if Cut(lib, c, n) && Cut(lib, c, m) then
      CutHolder(c, n, EffectiveWidth(c).value) == CutHolder(c, m, EffectiveWidth(c).value)
    else if Cut(lib, c, n) then Labelled(c) && IsTail(Label(c, m), n, EffectiveWidth(c).value)
    else if Cut(lib, c, m) then Labelled(c) && IsTail(Label(c, n), m, EffectiveWidth(c).value)
    else if Labelled(c) then Label(c, n) == Label(c, m)
    else ElementText(lib, c, n) == ElementText(lib, c, m)
  }

  /** The first number from m on of which p holds, and n where none below it is. */
  function First(p: nat -> bool, n: nat, m: nat): (k: nat)
    requires m <= n
    ensures m <= k <= n && (k < n ==> p(k))
    ensures forall j: nat :: m <= j < k ==> !p(j)
    decreases n - m
  {
    if m == n || p(m) then m else First(p, n, m + 1)
  }

  function Meeting(lib: Library, c: Column, n: nat): nat -> bool
    requires !Regular(c)
  {
    (k: nat) => Meet(lib, c, k, n)
  }

  /** The first ordinal that meets n. */
  function FirstMeeting(lib: Library, c: Column, n: nat): nat
    requires !Regular(c)
  {
    First(Meeting(lib, c, n), n, 0)
  }

  /** The first ordinal with the value of n. */
  function Holder(lib: Library, c: Column, n: nat): nat {
    if !Regular(c) then FirstMeeting(lib, c, n)
    else if Cut(lib, c, n) then CutHolder(c, n, EffectiveWidth(c).value)
    else RawHolder(lib, c, n)
  }

  /** No label is too long for the column. */
  predicate LabelsFit(c: Column) {
    Labelled(c) && EffectiveWidth(c).Some? ==>
      forall i :: 0 <= i < |c.values| ==> |c.values[i]| <= EffectiveWidth(c).value
  }

  lemma FakeIs(lib: Library, c: Column, n: nat)
    ensures FakeValue(lib, c, n, true)
            == if Cut(lib, c, n) then Text(Base36Tail(n, EffectiveWidth(c).value)) else RawFakeValue(lib, c, n, true)
  {
  }

  lemma CutHolderBelow(c: Column, n: nat, width: nat)
    requires width > 0
    ensures CutHolder(c, n, width) <= n
  {
    var tail, p := Base36Tail(n, width), Power(36, width);
    Division(n, p);
    if c.format == NumericString && Written(tail, 10) {
      ValueGrowsWithBase(tail, 10, 36);
      if n < p {
        ShortTail(n, width);
        NumeralValue(n, 36);
      } else {
        TailValue(n, width);
      }
    } else if n >= p {
      PastPower(n, p);
    }
  }

  lemma PastPower(n: nat, p: nat)
    requires 0 < p <= n
    ensures n % p + p <= n
  {
    Division(n, p);
    PositiveQuotient(n, p);
    AtLeastFactor(p, n / p);
  }

  lemma {:induction false} FirstIndexBelow(xs: seq<string>, i: nat)
    requires i < |xs|
    ensures FirstIndex(xs, xs[i]) <= i
  {
    if xs[0] != xs[i] {
      assert xs[1..][i - 1] == xs[i];
      FirstIndexBelow(xs[1..], i - 1);
    }
  }

  lemma HolderBelow(lib: Library, c: Column, n: nat)
    ensures Holder(lib, c, n) <= n
  {
    if !Regular(c) {
    } else if Cut(lib, c, n) {
      CutHolderBelow(c, n, EffectiveWidth(c).value);
    } else {
      RawHolderBelow(lib, c, n);
    }
  }

  lemma RawHolderBelow(lib: Library, c: Column, n: nat)
    ensures RawHolder(lib, c, n) <= n
  {
    if Labelled(c) {
      FirstIndexBelow(c.values, n % |c.values|);
      RemainderAtMost(n, |c.values|);
    } else if Cycle(lib, c).Some? {
      RemainderAtMost(n, Cycle(lib, c).value);
    }
  }

  lemma RemainderAtMost(n: nat, m: nat)
    requires m > 0
    ensures n % m <= n
  {
  }

  /** An ordinal and the one CutHolder names for it have the same tail. */
  lemma CutHolderTail(c: Column, n: nat, width: nat)
    requires width > 0 && !(c.format == NumericString && Written(Base36Tail(n, width), 10))
    ensures Base36Tail(CutHolder(c, n, width), width) == Base36Tail(n, width)
  {
    if n >= Power(36, width) {
      if |Numeral(n % Power(36, width), 36)| == width {
        ResidueTail(n, width);
      }
      ShiftedTail(n, width);
    }
  }

  lemma ResidueTail(n: nat, width: nat)
    requires width > 0 && n >= Power(36, width) && |Numeral(n % Power(36, width), 36)| == width
    ensures Base36Tail(n % Power(36, width), width) == Base36Tail(n, width)
  {
    var v := n % Power(36, width);
    TailValue(n, width);
    ShortTail(v, width);
    NumeralValue(v, 36);
    SameValueSameText(Base36Tail(v, width), Base36Tail(n, width), 36);
  }

  lemma ShiftedTail(n: nat, width: nat)
    requires width > 0 && n >= Power(36, width)
    ensures Base36Tail(n % Power(36, width) + Power(36, width), width) == Base36Tail(n, width)
  {
    var p := Power(36, width);
    OnePast(n % p, p);
    TailValue(n, width);
    TailValue(n % p + p, width);
    SameValueSameText(Base36Tail(n % p + p, width), Base36Tail(n, width), 36);
  }

  lemma OnePast(v: nat, p: nat)
    requires v < p
    ensures (v + p) % p == v
  {
    Quotient(v + p, 1, v, p);
  }

  /** Which ordinal holds a tail depends on the tail alone. */
  lemma SameTailSameHolder(c: Column, n: nat, m: nat, width: nat)
    requires width > 0 && Base36Tail(n, width) == Base36Tail(m, width)
    requires c.format == NumericString ==> |Numeral(n, 10)| > width && |Numeral(m, 10)| > width
    ensures CutHolder(c, n, width) == CutHolder(c, m, width)
  {
    var p := Power(36, width);
    if n < p && m < p {
      TailInjective(n, m, width);
    } else if n < p {
      ShortAndLong(n, m, width);
    } else if m < p {
      ShortAndLong(m, n, width);
    } else {
      TailValue(n, width);
      TailValue(m, width);
    }
  }

  lemma ShortAndLong(n: nat, m: nat, width: nat)
    requires width > 0 && n < Power(36, width) <= m && Base36Tail(n, width) == Base36Tail(m, width)
    ensures m % Power(36, width) == n && |Numeral(n, 36)| == width
  {
    ShortTail(n, width);
    NumeralValue(n, 36);
    TailValue(m, width);
  }

  // ----- what is cut stays cut -----

  /** How long the text of a category is whose every value is equally long. */
  function EvenLength(c: Column, k: Category): nat {
    match k
    case Macaddr => 17
    case Macaddr8 => 23
    case Bit => BitWidth(c)
    case _ => 2
  }

  lemma ScalarLength(lib: Library, k: Category, c: Column, n: nat)
    requires CategoryTemplate(k).None? && !k.Array? && !k.Inet? && !k.Point?
    ensures var v := ScalarValue(lib, k, c, n, true);
            && (v.Text? <==> k.Macaddr? || k.Macaddr8? || k.Bit? || k.Json?)
            && (v.Text? ==> |v.s| == EvenLength(c, k))
  {
    HexByteIff(n / 0x1_0000_0000, n / 0x100_0000);
    HexByteIff(n / 0x1_0000, n / 0x100);
    HexByteIff(n, n);
  }

  lemma UniformLength(lib: Library, c: Column, n: nat, m: nat)
    requires TemplateOf(c).None? && !IsArray(c) && !Labelled(c) && !IsAddress(c) && !IsPoint(c)
    ensures var v, u := RawFakeValue(lib, c, n, true), RawFakeValue(lib, c, m, true);
            v.Text? == u.Text? && (v.Text? ==> |v.s| == |u.s|)
  {
    if c.format == NoFormat {
      ScalarLength(lib, Categorize(c.typ), c, n);
      ScalarLength(lib, Categorize(c.typ), c, m);
    }
  }

  predicate IsAddress(c: Column) {
    c.format == Ipv4 || (c.format == NoFormat && Categorize(c.typ).Inet?)
  }

  predicate IsPoint(c: Column) {
    c.format == NoFormat && Categorize(c.typ).Point?
  }

  /** Decimal digits are no fewer than base-36 ones. */
  lemma DecimalLonger(n: nat)
    ensures |Numeral(n, 10)| >= |Numeral(n, 36)|
  {
    NumeralValue(n, 10);
    ValueBelow(Numeral(n, 10), 10);
    PowerGrows(10, 36, |Numeral(n, 10)|);
    NumeralLength(n, 36, |Numeral(n, 10)|);
  }

  lemma {:induction false} PowerGrows(a: nat, b: nat, k: nat)
    requires a <= b
    ensures Power(a, k) <= Power(b, k)
  {
    if k > 0 {
      PowerGrows(a, b, k - 1);
      ProductGrows(a, Power(a, k - 1), b, Power(b, k - 1));
    }
  }

  /** The ordinal that CutHolder names has at least width decimal digits, and more when it is itself plain digits. */
  lemma CutHolderLong(c: Column, n: nat, width: nat)
    requires width > 0 && n >= Power(36, width) && !(c.format == NumericString && Written(Base36Tail(n, width), 10))
    ensures |Numeral(CutHolder(c, n, width), 10)| >= width
    ensures c.format == NumericString ==> |Numeral(CutHolder(c, n, width), 10)| > width
  {
    var p := Power(36, width);
    DecimalLonger(n % p);
    DecimalLonger(n % p + p);
    LongNumeral(n % p + p, width, 36);
  }

  /** The ordinal that CutHolder names leaves the same remainder. */
  lemma CutHolderResidue(c: Column, n: nat, width: nat)
    requires width > 0 && c.format != NumericString
    ensures CutHolder(c, n, width) % Power(36, width) == n % Power(36, width)
  {
    if n >= Power(36, width) {
      OnePast(n % Power(36, width), Power(36, width));
      SmallModulus(n % Power(36, width), Power(36, width));
    }
  }

  lemma SmallModulus(n: nat, m: nat)
    requires n < m
    ensures n % m == n
  {
  }

  lemma AddressLength(n: nat)
    ensures 9 <= |"192.0.2." + Numeral(n % 256, 10)| <= 11
  {
    assert Power(10, 3) == 10 * (10 * (10 * Power(10, 0)));
    NumeralLength(n % 256, 10, 3);
  }

  /** Every fourth power of 36 is a multiple of 256, so the tail's residue decides the address. */
  lemma {:induction false} PowerOfFour(width: nat) returns (e: nat)
    requires width >= 4
    ensures Power(36, width) == 256 * e
  {
    if width == 4 {
      assert Power(36, 2) == 36 * (36 * Power(36, 0));
      assert Power(36, 4) == 36 * (36 * Power(36, 2));
      e := 6561;
    } else {
      var d := PowerOfFour(width - 1);
      e := 36 * d;
    }
  }

  lemma ResidueOfResidue(n: nat, m: nat, b: nat, e: nat)
    requires b > 0 && e > 0 && b * e > 0 && n % (b * e) == m % (b * e)
    ensures n % b == m % b
  {
    PlacesIff(n, m, b, e);
  }

  lemma CutAgain(lib: Library, c: Column, n: nat)
    requires Cut(lib, c, n) && Regular(c)
    requires !(c.format == NumericString && Written(Base36Tail(n, EffectiveWidth(c).value), 10))
    ensures Cut(lib, c, CutHolder(c, n, EffectiveWidth(c).value))
  {
    var width := EffectiveWidth(c).value;
    var k := CutHolder(c, n, width);
    if n < Power(36, width) {
    } else if TemplateOf(c).Some? {
      CutHolderLong(c, n, width);
      TemplateLength(lib, c, k);
    } else if IsPoint(c) {
      CutHolderLong(c, n, width);
      PointLength(lib, c, k);
    } else if IsAddress(c) {
      AddressCutAgain(lib, c, n, width);
    } else {
      UniformLength(lib, c, n, k);
    }
  }

  lemma TemplateLength(lib: Library, c: Column, k: nat)
    requires TemplateOf(c).Some?
    ensures var v := RawFakeValue(lib, c, k, true);
            v.Text? && |v.s| >= |Numeral(k, 10)| && (c.format != NumericString ==> |v.s| > |Numeral(k, 10)|)
  {
    TemplatesAreMarked(c);
    var t := TemplateOf(c).value;
    assert |t.prefix| + |t.suffix| == 0 ==> !Marked(t);
  }

  lemma PointLength(lib: Library, c: Column, k: nat)
    requires IsPoint(c)
    ensures var v := RawFakeValue(lib, c, k, true); v.Text? && |v.s| > |Numeral(k, 10)|
  {
  }

  lemma AddressCutAgain(lib: Library, c: Column, n: nat, width: nat)
    requires IsAddress(c) && EffectiveWidth(c) == Some(width) && Cut(lib, c, n) && n >= Power(36, width)
    ensures Cut(lib, c, CutHolder(c, n, width))
  {
    AddressCutIff(lib, c, n, width);
    AddressCutIff(lib, c, CutHolder(c, n, width), width);
    SameAddress(c, n, width);
  }

  lemma AddressCutIff(lib: Library, c: Column, n: nat, width: nat)
    requires IsAddress(c) && EffectiveWidth(c) == Some(width)
    ensures Cut(lib, c, n) <==> 8 + |Numeral(n % 256, 10)| > width
  {
    AddressRaw(lib, c, n);
    assert |"192.0.2." + Numeral(n % 256, 10)| == 8 + |Numeral(n % 256, 10)|;
  }

  lemma AddressRaw(lib: Library, c: Column, n: nat)
    requires IsAddress(c)
    ensures RawFakeValue(lib, c, n, true) == Text("192.0.2." + Numeral(n % 256, 10))
  {
    if c.format == NoFormat {
      InetScalar(lib, Categorize(c.typ), c, n);
    }
  }

  lemma InetScalar(lib: Library, k: Category, c: Column, n: nat)
    requires k.Inet?
    ensures CategoryTemplate(k).None? && ScalarValue(lib, k, c, n, true) == Text("192.0.2." + Numeral(n % 256, 10))
  {
  }

  lemma SameAddress(c: Column, n: nat, width: nat)
    requires c.format != NumericString && width > 0 && n >= Power(36, width)
    ensures width < 9 || CutHolder(c, n, width) % 256 == n % 256
  {
    if width >= 9 {
      var e := PowerOfFour(width);
      CutHolderResidue(c, n, width);
      ResidueOfResidue(n, CutHolder(c, n, width), 256, e);
    }
  }

  // ----- Holder names the first ordinal with a value -----

  /** Text that is not plain digits, a bit string or a label shows a character no tail has. */
  lemma RawIsNoTail(lib: Library, c: Column, n: nat)
    requires RawFakeValue(lib, c, n, true).Text? && !IsArray(c) && !Labelled(c)
    requires c.format != NumericString && !(c.format == NoFormat && Categorize(c.typ).Bit?)
    ensures !AllDigits(RawFakeValue(lib, c, n, true).s, 36)
  {
    var s := RawFakeValue(lib, c, n, true).s;
    if TemplateOf(c).Some? {
      TemplatesAreMarked(c);
      MarkedFill(TemplateOf(c).value, n);
    } else if IsAddress(c) {
      assert s[3] == '.';
    } else if IsPoint(c) || c.format != NoFormat {
      assert CharDigit(s[0]) == 36;
    } else {
      ScalarIsNoTail(lib, Categorize(c.typ), c, n);
    }
  }

  lemma ScalarIsNoTail(lib: Library, k: Category, c: Column, n: nat)
    requires k.Macaddr? || k.Macaddr8? || k.Json?
    ensures var v := ScalarValue(lib, k, c, n, true); v.Text? && !AllDigits(v.s, 36)
  {
    var s := ScalarValue(lib, k, c, n, true).s;
    assert s[if k.Json? then 0 else 2] == if k.Json? then '{' else ':';
  }

  lemma DigitsOf(lib: Library, c: Column, n: nat)
    requires c.format == NumericString
    ensures RawFakeValue(lib, c, n, true) == Text(Numeral(n, 10)) && RawHolder(lib, c, n) == n
  {
    assert Fill(Template("", 0, ""), n) == Numeral(n, 10);
  }

  lemma LabelsNeverCut(lib: Library, c: Column, n: nat)
    requires Labelled(c) && LabelsFit(c)
    ensures !Cut(lib, c, n)
  {
    var text := c.values[n % |c.values|];
    assert EffectiveWidth(c).Some? ==> |text| <= EffectiveWidth(c).value;
  }

  lemma BitsCutAlike(lib: Library, c: Column, n: nat, m: nat)
    requires c.format == NoFormat && Categorize(c.typ).Bit?
    ensures Cut(lib, c, n) == Cut(lib, c, m)
  {
    UniformLength(lib, c, n, m);
  }

  /** A text that fits is the tail of a longer one only where both are plain digits. */
  lemma FittingIsNoTail(lib: Library, c: Column, n: nat, m: nat)
    requires Regular(c) && !Cut(lib, c, n) && Cut(lib, c, m)
    requires RawFakeValue(lib, c, n, true) == Text(Base36Tail(m, EffectiveWidth(c).value))
    ensures c.format == NumericString
  {
    if Labelled(c) {
      LabelsNeverCut(lib, c, m);
    } else if c.format == NoFormat && Categorize(c.typ).Bit? {
      BitsCutAlike(lib, c, n, m);
    } else if c.format != NumericString {
      RawIsNoTail(lib, c, n);
    }
  }

  lemma HolderHolds(lib: Library, c: Column, n: nat)
    requires Regular(c) && n <= MAX_INT64
    ensures FakeValue(lib, c, Holder(lib, c, n), true) == FakeValue(lib, c, n, true)
  {
    FakeIs(lib, c, n);
    FakeIs(lib, c, Holder(lib, c, n));
    if Cut(lib, c, n) {
      var width := EffectiveWidth(c).value;
      if c.format == NumericString && Written(Base36Tail(n, width), 10) {
        ValueWritten(Base36Tail(n, width), 10);
        DigitsOf(lib, c, Holder(lib, c, n));
      } else {
        CutHolderTail(c, n, width);
        CutAgain(lib, c, n);
      }
    } else {
      RawHolderHolds(lib, c, n);
    }
  }

  lemma RawHolderHolds(lib: Library, c: Column, n: nat)
    requires !IsArray(c) && n <= MAX_INT64
    ensures RawFakeValue(lib, c, RawHolder(lib, c, n), true) == RawFakeValue(lib, c, n, true)
  {
    var k := RawHolder(lib, c, n);
    RawHolderBelow(lib, c, n);
    RawHolderIff(lib, c, n, k);
    if Labelled(c) {
      SmallModulus(k, |c.values|);
    } else if Cycle(lib, c).Some? {
      SmallModulus(k, Cycle(lib, c).value);
    }
  }

  lemma SameValueSameHolder(lib: Library, c: Column, n: nat, m: nat)
    requires Regular(c) && n <= MAX_INT64 && m <= MAX_INT64
    requires FakeValue(lib, c, n, true) == FakeValue(lib, c, m, true)
    ensures Holder(lib, c, n) == Holder(lib, c, m)
  {
    FakeIs(lib, c, n);
    FakeIs(lib, c, m);
    if Cut(lib, c, n) && Cut(lib, c, m) {
      if c.format == NumericString {
        DigitsOf(lib, c, n);
        DigitsOf(lib, c, m);
      }
      SameTailSameHolder(c, n, m, EffectiveWidth(c).value);
    } else if Cut(lib, c, n) {
      DigitsHeld(lib, c, m, n);
    } else if Cut(lib, c, m) {
      DigitsHeld(lib, c, n, m);
    } else {
      RawHolderIff(lib, c, n, m);
    }
  }

  lemma DigitsHeld(lib: Library, c: Column, n: nat, m: nat)
    requires Regular(c) && !Cut(lib, c, n) && Cut(lib, c, m)
    requires FakeValue(lib, c, n, true) == FakeValue(lib, c, m, true)
    ensures Holder(lib, c, n) == n == Holder(lib, c, m)
  {
    FakeIs(lib, c, n);
    FakeIs(lib, c, m);
    FittingIsNoTail(lib, c, n, m);
    NumeralWritten(n, 10);
    NumeralValue(n, 10);
    DigitsOf(lib, c, n);
  }

  // ----- texts of any length -----

  lemma IsTailIff(s: string, n: nat, width: nat)
    requires width > 0
    ensures s == Base36Tail(n, width) <==> IsTail(s, n, width)
  {
    if n < Power(36, width) {
      ShortTail(n, width);
      NumeralWritten(n, 36);
      NumeralValue(n, 36);
      if IsTail(s, n, width) {
        ValueWritten(s, 36);
      }
    } else {
      TailValue(n, width);
      if IsTail(s, n, width) {
        SameValueSameText(s, Base36Tail(n, width), 36);
      }
    }
  }

  lemma SameTailIff(c: Column, n: nat, m: nat, width: nat)
    requires width > 0 && c.format != NumericString
    ensures Base36Tail(n, width) == Base36Tail(m, width) <==> CutHolder(c, n, width) == CutHolder(c, m, width)
  {
    if Base36Tail(n, width) == Base36Tail(m, width) {
      SameTailSameHolder(c, n, m, width);
    }
    CutHolderTail(c, n, width);
    CutHolderTail(c, m, width);
  }

  lemma {:induction false} EscapedIff(s: string, t: string)
    ensures Escaped(s) == Escaped(t) <==> s == t
  {
    if s != "" && t != "" {
      EscapedHead(s);
      EscapedHead(t);
      EscapedIff(s[1..], t[1..]);
      if Escaped(s) == Escaped(t) {
        assert s[0] == t[0];
        assert s == [s[0]] + s[1..] && t == [t[0]] + t[1..];
      }
    }
  }

  /** The first character is told by the first one or two of the escaped text. */
  lemma EscapedHead(s: string)
    requires s != ""
    ensures var e := Escaped(s);
            && e != "" && (e[0] == '\\' <==> s[0] == '\\' || s[0] == '"')
            && (e[0] == '\\' ==> |e| >= 2 && e[1] == s[0] && e[2..] == Escaped(s[1..]))
            && (e[0] != '\\' ==> e[0] == s[0] && e[1..] == Escaped(s[1..]))
  {
  }

  lemma UnevenRaw(lib: Library, c: Column, n: nat)
    requires !Regular(c)
    ensures c.format != NumericString
    ensures RawFakeValue(lib, c, n, true)
            == Text(if Labelled(c) then Label(c, n) else "{\"" + Escaped(ElementText(lib, c, n)) + "\"}")
  {
  }

  lemma ArrayTextIff(s: string, t: string)
    ensures "{\"" + Escaped(s) + "\"}" == "{\"" + Escaped(t) + "\"}" <==> s == t
  {
    var x, y := "{\"" + Escaped(s) + "\"}", "{\"" + Escaped(t) + "\"}";
    assert x[2..|x| - 2] == Escaped(s) && y[2..|y| - 2] == Escaped(t);
    EscapedIff(s, t);
  }

  lemma ArrayIsNoTail(s: string, n: nat, width: nat)
    ensures "{\"" + Escaped(s) + "\"}" != Base36Tail(n, width)
  {
    assert ("{\"" + Escaped(s) + "\"}")[0] == '{' && CharDigit('{') == 36;
  }

  lemma MeetIff(lib: Library, c: Column, n: nat, m: nat)
    requires !Regular(c)
    ensures FakeValue(lib, c, n, true) == FakeValue(lib, c, m, true) <==> Meet(lib, c, n, m)
  {
    FakeIs(lib, c, n);
    FakeIs(lib, c, m);
    UnevenRaw(lib, c, n);
    UnevenRaw(lib, c, m);
    if Cut(lib, c, n) && Cut(lib, c, m) {
      SameTailIff(c, n, m, EffectiveWidth(c).value);
    } else if Cut(lib, c, n) {
      FittingMeets(lib, c, m, n);
    } else if Cut(lib, c, m) {
      FittingMeets(lib, c, n, m);
    } else if !Labelled(c) {
      ArrayTextIff(ElementText(lib, c, n), ElementText(lib, c, m));
    }
  }

  lemma FittingMeets(lib: Library, c: Column, n: nat, m: nat)
    requires !Regular(c) && EffectiveWidth(c).Some?
    ensures RawFakeValue(lib, c, n, true) == Text(Base36Tail(m, EffectiveWidth(c).value))
            <==> Labelled(c) && IsTail(Label(c, n), m, EffectiveWidth(c).value)
  {
    UnevenRaw(lib, c, n);
    if Labelled(c) {
      IsTailIff(Label(c, n), m, EffectiveWidth(c).value);
    } else {
      ArrayIsNoTail(ElementText(lib, c, n), m, EffectiveWidth(c).value);
    }
  }

  lemma SameFirst(p: nat -> bool, q: nat -> bool, n: nat, m: nat)
    requires n <= m && q(n) && forall j: nat :: p(j) <==> q(j)
    ensures First(p, n, 0) == First(q, m, 0)
  {
    var a, b := First(p, n, 0), First(q, m, 0);
    assert !(a < b) && !(b < a);
  }

  lemma MeetingHolds(lib: Library, c: Column, n: nat)
    requires !Regular(c)
    ensures FakeValue(lib, c, FirstMeeting(lib, c, n), true) == FakeValue(lib, c, n, true)
  {
    MeetIff(lib, c, FirstMeeting(lib, c, n), n);
    assert FirstMeeting(lib, c, n) < n ==> Meeting(lib, c, n)(FirstMeeting(lib, c, n));
  }

  lemma SameMeeting(lib: Library, c: Column, n: nat, m: nat)
    requires !Regular(c) && n <= m && FakeValue(lib, c, n, true) == FakeValue(lib, c, m, true)
    ensures FirstMeeting(lib, c, n) == FirstMeeting(lib, c, m)
  {
    forall k: nat
      ensures Meeting(lib, c, n)(k) <==> Meeting(lib, c, m)(k)
    {
      MeetIff(lib, c, k, n);
      MeetIff(lib, c, k, m);
    }
    MeetIff(lib, c, n, m);
    SameFirst(Meeting(lib, c, n), Meeting(lib, c, m), n, m);
  }

  // ----- one holder, one value -----

  lemma RegularIff(lib: Library, c: Column, n: nat, m: nat)
    requires Regular(c) && n <= MAX_INT64 && m <= MAX_INT64
    ensures FakeValue(lib, c, n, true) == FakeValue(lib, c, m, true) <==> Holder(lib, c, n) == Holder(lib, c, m)
    ensures Holder(lib, c, n) <= n && Holder(lib, c, Holder(lib, c, n)) == Holder(lib, c, n)
  {
    HolderHolds(lib, c, n);
    HolderHolds(lib, c, m);
    HolderBelow(lib, c, n);
    SameValueSameHolder(lib, c, Holder(lib, c, n), n);
    if FakeValue(lib, c, n, true) == FakeValue(lib, c, m, true) {
      SameValueSameHolder(lib, c, n, m);
    }
  }

  /** Two ordinals carry one value exactly when Holder names one ordinal for both; it is the
      first that carries the value. */
  lemma SameValueIff(lib: Library, c: Column, n: nat, m: nat)
    requires n <= MAX_INT64 && m <= MAX_INT64
    ensures FakeValue(lib, c, n, true) == FakeValue(lib, c, m, true) <==> Holder(lib, c, n) == Holder(lib, c, m)
    ensures Holder(lib, c, n) <= n && Holder(lib, c, Holder(lib, c, n)) == Holder(lib, c, n)
  {
    if Regular(c) {
      RegularIff(lib, c, n, m);
    } else {
      MeetingHolds(lib, c, n);
      MeetingHolds(lib, c, m);
      SameMeeting(lib, c, FirstMeeting(lib, c, n), n);
      if FakeValue(lib, c, n, true) == FakeValue(lib, c, m, true) {
        if n <= m {
          SameMeeting(lib, c, n, m);
        } else {
          SameMeeting(lib, c, m, n);
        }
      }
    }
  }

  // ----- how many rows stay apart -----

  /** The values of the first n ordinals are pairwise different. */
  ghost predicate AllApart(lib: Library, c: Column, n: nat) {
    forall i: nat, j: nat :: i < j < n ==> FakeValue(lib, c, i, true) != FakeValue(lib, c, j, true)
  }

  /** Every one of the first n ordinals is the first with its value. */
  ghost predicate AllFirst(lib: Library, c: Column, n: nat) {
    forall i: nat :: i < n ==> Holder(lib, c, i) == i
  }

  lemma AllApartIff(lib: Library, c: Column, n: nat)
    requires n <= MAX_INT64
    ensures AllApart(lib, c, n) <==> AllFirst(lib, c, n)
  {
    if AllFirst(lib, c, n) {
      forall i: nat, j: nat | i < j < n
        ensures FakeValue(lib, c, i, true) != FakeValue(lib, c, j, true)
      {
        assert Holder(lib, c, i) == i && Holder(lib, c, j) == j;
        FirstsDiffer(lib, c, i, j);
      }
    } else {
      var i: nat :| i < n && Holder(lib, c, i) != i;
      HeldEarlier(lib, c, n, i);
    }
  }

  lemma FirstsDiffer(lib: Library, c: Column, i: nat, j: nat)
    requires i < j <= MAX_INT64 && Holder(lib, c, i) == i && Holder(lib, c, j) == j
    ensures FakeValue(lib, c, i, true) != FakeValue(lib, c, j, true)
  {
    SameValueIff(lib, c, i, j);
  }

  lemma HeldEarlier(lib: Library, c: Column, n: nat, i: nat)
    requires i < n <= MAX_INT64 && Holder(lib, c, i) != i
    ensures !AllApart(lib, c, n)
  {
    HeldAlike(lib, c, i, Holder(lib, c, i));
  }

  lemma HeldAlike(lib: Library, c: Column, i: nat, k: nat)
    requires i <= MAX_INT64 && k == Holder(lib, c, i)
    ensures k <= i && FakeValue(lib, c, k, true) == FakeValue(lib, c, i, true)
  {
    SameValueIff(lib, c, i, i);
    SameValueIff(lib, c, k, i);
  }

  /** How many ordinals the tails of one width tell apart: past 36^width they start with zeros. */
  function TailRoom(width: nat): nat {
    if width <= 1 then 36 else Power(36, width) + Power(36, width - 1)
  }

  /** How many rows of a column are told apart; None if all are. */
  function Room(lib: Library, c: Column): Option<nat> {
    if EffectiveWidth(c).Some? && (Cut(lib, c, 0) || TemplateOf(c).Some? || IsPoint(c)) then
      Some(TailRoom(EffectiveWidth(c).value))
    else Cycle(lib, c)
  }

  predicate DistinctValues(c: Column, n: nat) {
    n <= |c.values| && forall i, j :: 0 <= i < j < n ==> c.values[i] != c.values[j]
  }

  ghost predicate NoneMeet(lib: Library, c: Column, n: nat)
    requires !Regular(c)
  {
    forall i: nat, j: nat :: i < j < n ==> !Meet(lib, c, i, j)
  }

  /** The rendering confuses no two of the first n ordinals: n rows have room, no two of
      their labels or elements meet, and no plain digits are met by base-36 text. */
  ghost predicate TellsApart(lib: Library, c: Column, n: nat) {
    if !Regular(c) then NoneMeet(lib, c, n)
    else if c.format == NumericString then
      EffectiveWidth(c).Some? ==> forall m: nat :: m < n ==> !LooksDecimal(m, EffectiveWidth(c).value)
    else if Labelled(c) then DistinctValues(c, n)
    else Room(lib, c).Some? ==> n <= Room(lib, c).value
  }

  /** The values of n rows are pairwise different if and only if the column tells n rows apart. */
  lemma TellsApartIff(lib: Library, c: Column, n: nat)
    requires n <= MAX_INT64
    ensures AllApart(lib, c, n) <==> TellsApart(lib, c, n)
  {
    AllApartIff(lib, c, n);
    if !Regular(c) {
      UnevenApartIff(lib, c, n);
    } else if c.format == NumericString {
      DigitsApartIff(lib, c, n);
    } else if Labelled(c) {
      LabelsApartIff(lib, c, n);
    } else if EffectiveWidth(c).Some? && (Cut(lib, c, 0) || TemplateOf(c).Some? || IsPoint(c)) {
      TailsApartIff(lib, c, n);
    } else {
      CycleApartIff(lib, c, n);
    }
  }

  lemma UnevenApartIff(lib: Library, c: Column, n: nat)
    requires !Regular(c)
    ensures AllApart(lib, c, n) <==> NoneMeet(lib, c, n)
  {
    if NoneMeet(lib, c, n) {
      forall i: nat, j: nat | i < j < n
        ensures FakeValue(lib, c, i, true) != FakeValue(lib, c, j, true)
      {
        assert !Meet(lib, c, i, j);
        MeetIff(lib, c, i, j);
      }
    } else {
      var i: nat, j: nat :| i < j < n && Meet(lib, c, i, j);
      MeetIff(lib, c, i, j);
    }
  }

  // ----- labels -----

  lemma LabelsApartIff(lib: Library, c: Column, n: nat)
    requires Labelled(c) && LabelsFit(c)
    ensures AllFirst(lib, c, n) <==> DistinctValues(c, n)
  {
    if DistinctValues(c, n) {
      forall i: nat | i < n
        ensures Holder(lib, c, i) == i
      {
        LabelFirst(lib, c, n, i);
      }
    } else if n > |c.values| {
      LabelHolder(lib, c, |c.values|);
    } else {
      var i, j :| 0 <= i < j < n && c.values[i] == c.values[j];
      LabelHolder(lib, c, j);
      SmallModulus(j, |c.values|);
      FirstIndexBelow(c.values, i);
    }
  }

  lemma LabelHolder(lib: Library, c: Column, n: nat)
    requires Labelled(c) && LabelsFit(c)
    ensures Holder(lib, c, n) == FirstIndex(c.values, c.values[n % |c.values|]) < |c.values|
  {
    LabelsNeverCut(lib, c, n);
  }

  lemma LabelFirst(lib: Library, c: Column, n: nat, i: nat)
    requires Labelled(c) && LabelsFit(c) && DistinctValues(c, n) && i < n
    ensures Holder(lib, c, i) == i
  {
    LabelHolder(lib, c, i);
    SmallModulus(i, |c.values|);
    FirstIndexBelow(c.values, i);
  }

  // ----- values that start over, and values that never do -----

  /** Where the first value fits, the ordinals of one cycle are told apart and no more. */
  lemma CycleApartIff(lib: Library, c: Column, n: nat)
    requires !IsArray(c) && !Labelled(c) && n <= MAX_INT64
    requires EffectiveWidth(c).Some? ==> !Cut(lib, c, 0) && TemplateOf(c).None? && !IsPoint(c)
    ensures AllFirst(lib, c, n) <==> (Cycle(lib, c).Some? ==> n <= Cycle(lib, c).value)
  {
    if Cycle(lib, c).Some? && n > Cycle(lib, c).value {
      CycleRestarts(lib, c);
    } else {
      forall i: nat | i < n
        ensures Holder(lib, c, i) == i
      {
        FirstInCycle(lib, c, i);
      }
    }
  }

  lemma CycleRestarts(lib: Library, c: Column)
    requires !IsArray(c) && !Labelled(c) && Cycle(lib, c).Some? && Cycle(lib, c).value <= MAX_INT64 && !Cut(lib, c, 0)
    ensures Holder(lib, c, Cycle(lib, c).value) == 0
  {
    var p := Cycle(lib, c).value;
    assert p % p == 0 && 0 % p == 0;
    RawHolderIff(lib, c, 0, p);
  }

  lemma FirstInCycle(lib: Library, c: Column, i: nat)
    requires !IsArray(c) && !Labelled(c) && (Cycle(lib, c).Some? ==> i < Cycle(lib, c).value)
    requires EffectiveWidth(c).Some? ==> !Cut(lib, c, 0) && TemplateOf(c).None? && !IsPoint(c)
    ensures Holder(lib, c, i) == i
  {
    if Cut(lib, c, i) {
      if IsAddress(c) {
        AddressOwnTail(c, i);
      } else {
        UniformLength(lib, c, 0, i);
      }
    } else if Cycle(lib, c).Some? {
      SmallModulus(i, Cycle(lib, c).value);
    }
  }

  lemma AddressOwnTail(c: Column, i: nat)
    requires c.format != NumericString && i < 256 && EffectiveWidth(c).Some? && EffectiveWidth(c).value >= 9
    ensures CutHolder(c, i, EffectiveWidth(c).value) == i
  {
    assert Power(36, 2) == 36 * (36 * Power(36, 0));
    PowerRises(36, 2, EffectiveWidth(c).value);
  }

  // ----- text cut to its tail -----

  lemma TailsApartIff(lib: Library, c: Column, n: nat)
    requires !IsArray(c) && !Labelled(c) && c.format != NumericString && EffectiveWidth(c).Some?
    requires Cut(lib, c, 0) || TemplateOf(c).Some? || IsPoint(c)
    ensures AllFirst(lib, c, n) <==> n <= TailRoom(EffectiveWidth(c).value)
  {
    var width := EffectiveWidth(c).value;
    if n <= TailRoom(width) {
      forall i: nat | i < n
        ensures Holder(lib, c, i) == i
      {
        FirstOfTails(lib, c, i);
      }
    } else {
      TailNotFirst(lib, c);
      assert TailRoom(width) < n && Holder(lib, c, TailRoom(width)) != TailRoom(width);
    }
  }

  lemma TailNotFirst(lib: Library, c: Column)
    requires !IsArray(c) && !Labelled(c) && c.format != NumericString && EffectiveWidth(c).Some?
    requires Cut(lib, c, 0) || TemplateOf(c).Some? || IsPoint(c)
    ensures Holder(lib, c, TailRoom(EffectiveWidth(c).value)) != TailRoom(EffectiveWidth(c).value)
  {
    LongTextCut(lib, c, TailRoom(EffectiveWidth(c).value));
    TailRestarts(c, EffectiveWidth(c).value);
  }

  lemma FirstOfTails(lib: Library, c: Column, i: nat)
    requires !IsArray(c) && !Labelled(c) && c.format != NumericString && EffectiveWidth(c).Some?
    requires Cut(lib, c, 0) || TemplateOf(c).Some? || IsPoint(c)
    requires i < TailRoom(EffectiveWidth(c).value)
    ensures Holder(lib, c, i) == i
  {
    if Cut(lib, c, i) {
      OwnTail(c, i, EffectiveWidth(c).value);
    } else {
      assert Cycle(lib, c).None? by {
        UncutNeverRepeats(lib, c, i);
      }
    }
  }

  lemma UncutNeverRepeats(lib: Library, c: Column, i: nat)
    requires !IsArray(c) && !Labelled(c) && (Cut(lib, c, 0) || TemplateOf(c).Some? || IsPoint(c)) && !Cut(lib, c, i)
    ensures Cycle(lib, c).None?
  {
    if TemplateOf(c).None? && !IsPoint(c) {
      CutFromTheStart(lib, c, i);
    }
  }

  /** Where the first value of a cycle is cut, every value is. */
  lemma CutFromTheStart(lib: Library, c: Column, i: nat)
    requires !IsArray(c) && !Labelled(c) && TemplateOf(c).None? && !IsPoint(c) && Cut(lib, c, 0)
    ensures Cut(lib, c, i)
  {
    if IsAddress(c) {
      AddressLength(i);
    } else {
      UniformLength(lib, c, 0, i);
    }
  }

  lemma OwnTail(c: Column, i: nat, width: nat)
    requires width > 0 && c.format != NumericString && i < TailRoom(width)
    ensures CutHolder(c, i, width) == i
  {
    assert Power(36, 1) == 36 * Power(36, 0);
    if i >= Power(36, width) {
      var v := i - Power(36, width);
      Quotient(i, 1, v, Power(36, width));
      NumeralLength(v, 36, width - 1);
    }
  }

  lemma TailRestarts(c: Column, width: nat)
    requires width > 0 && c.format != NumericString
    ensures CutHolder(c, TailRoom(width), width) < TailRoom(width)
  {
    if width == 1 {
      assert Power(36, 1) == 36 * Power(36, 0);
      assert 36 % 36 == 0;
    } else {
      var v := Power(36, width - 1);
      AtLeastFactor(v, 36);
      Quotient(TailRoom(width), 1, v, Power(36, width));
      LongNumeral(v, width - 1, 36);
      NumeralLength(v, 36, width);
    }
  }

  lemma LongTextCut(lib: Library, c: Column, n: nat)
    requires !IsArray(c) && !Labelled(c) && EffectiveWidth(c).Some? && n >= TailRoom(EffectiveWidth(c).value)
    requires Cut(lib, c, 0) || TemplateOf(c).Some? || IsPoint(c)
    ensures Cut(lib, c, n)
  {
    var width := EffectiveWidth(c).value;
    assert Power(36, 1) == 36 * Power(36, 0);
    LongNumeral(n, width, 36);
    DecimalLonger(n);
    if TemplateOf(c).Some? {
      TemplateLength(lib, c, n);
    } else if IsPoint(c) {
      PointLength(lib, c, n);
    } else {
      CutFromTheStart(lib, c, n);
    }
  }

  // ----- plain digits -----

  lemma DigitsApartIff(lib: Library, c: Column, n: nat)
    requires c.format == NumericString && n <= MAX_INT64
    ensures AllFirst(lib, c, n) <==> TellsApart(lib, c, n)
  {
    if EffectiveWidth(c).None? {
      forall i: nat | i < n
        ensures Holder(lib, c, i) == i
      {
        DigitsOf(lib, c, i);
      }
    } else {
      var width := EffectiveWidth(c).value;
      AllApartIff(lib, c, n);
      if n <= Power(36, width) {
        NumericStringsUniqueIff(lib, c, width, n);
      } else {
        var m := DecimalWitness(width);
        WitnessHeldEarlier(lib, c, m);
      }
    }
  }

  /** An ordinal whose base-36 text of the width reads as decimal. */
  lemma DecimalWitness(width: nat) returns (m: nat)
    requires width > 0
    ensures m <= Power(36, width) && LooksDecimal(m, width) && Written(Base36Tail(m, width), 10)
  {
    if width == 1 {
      m := 36;
      assert Power(36, 1) == 36 * Power(36, 0);
      assert Numeral(1, 36) == "1" && Numeral(36, 36) == "10" && Numeral(3, 10) == "3" && Numeral(36, 10) == "36";
    } else {
      m := 9 * Power(36, width - 1);
      NineAndZeros(width - 1);
      NineIsLong(width - 1);
      LongNumeral(m, width, 10);
      ShortTail(m, width);
      NumeralWritten(m, 36);
    }
  }

  lemma {:induction false} NineAndZeros(k: nat)
    ensures AllDigits(Numeral(9 * Power(36, k), 36), 10)
  {
    if k > 0 {
      var n := 9 * Power(36, k - 1);
      NineAndZeros(k - 1);
      Quotient(36 * n, n, 0, 36);
      assert Numeral(36 * n, 36) == Numeral(n, 36) + ['0'];
    }
  }

  lemma {:induction false} NineIsLong(k: nat)
    requires k >= 1
    ensures 9 * Power(36, k) >= Power(10, k + 1)
  {
    if k == 1 {
      assert Power(36, 1) == 36 * Power(36, 0) && Power(10, 2) == 10 * (10 * Power(10, 0));
    } else {
      NineIsLong(k - 1);
    }
  }

  lemma WitnessHeldEarlier(lib: Library, c: Column, m: nat)
    requires c.format == NumericString && EffectiveWidth(c).Some?
    requires LooksDecimal(m, EffectiveWidth(c).value) && Written(Base36Tail(m, EffectiveWidth(c).value), 10)
    ensures Holder(lib, c, m) != m
  {
    var width := EffectiveWidth(c).value;
    DigitsOf(lib, c, m);
    ValueWritten(Base36Tail(m, width), 10);
  }

  /** Plain digits tell apart as many rows as fit the width undisturbed. */
  lemma DigitsThatFit(lib: Library, c: Column, n: nat)
    requires c.format == NumericString && EffectiveWidth(c).Some? && n <= Power(10, EffectiveWidth(c).value)
    ensures TellsApart(lib, c, n)
  {
    var width := EffectiveWidth(c).value;
    forall m: nat | m < n
      ensures !LooksDecimal(m, width)
    {
      NumeralLength(m, 10, width);
    }
  }
}
