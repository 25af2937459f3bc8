/** Numerals in a base up to 36, digits '0' to '9' then 'a' to 'z'. */
module Digits {
  import opened Numbers
  import opened Wrappers

  function DigitChar(d: nat): char
    requires d < 36
  {
    if d < 10 then '0' + d as char else 'a' + (d - 10) as char
  }

  /** The digit a character stands for, 36 if none. */
  function CharDigit(c: char): (d: nat)
    ensures d <= 36
  {
    if '0' <= c <= '9' then (c - '0') as int
    else if 'a' <= c <= 'z' then (c - 'a') as int + 10
    else 36
  }

  lemma DigitRead(d: nat)
    requires d < 36
    ensures CharDigit(DigitChar(d)) == d
  {
  }

  predicate AllDigits(s: string, b: nat) {
    forall i :: 0 <= i < |s| ==> CharDigit(s[i]) < b
  }

  /** The number a numeral stands for. */
  function ValueOf(s: string, b: nat): nat {
    if s == "" then 0 else b * ValueOf(s[..|s| - 1], b) + CharDigit(s[|s| - 1])
  }

  /** The shortest numeral of n. */
  function Numeral(n: nat, b: nat): (s: string)
    requires 2 <= b <= 36
    ensures s != "" && AllDigits(s, b)
    decreases n
  {
    if n < b then [DigitChar(n)]
    else
      Division(n, b);
      Numeral(n / b, b) + [DigitChar(n % b)]
  }

  lemma {:induction false} NumeralValue(n: nat, b: nat)
    requires 2 <= b <= 36
    ensures ValueOf(Numeral(n, b), b) == n
    decreases n
  {
    if n < b {
      DigitRead(n);
      ValueMore("", DigitChar(n), b);
      assert "" + [DigitChar(n)] == [DigitChar(n)];
    } else {
      Division(n, b);
      NumeralValue(n / b, b);
      NumeralStep(n / b, n % b, b);
    }
  }

  lemma NumeralStep(q: nat, r: nat, b: nat)
    requires 2 <= b <= 36 && r < b && ValueOf(Numeral(q, b), b) == q
    ensures ValueOf(Numeral(q, b) + [DigitChar(r)], b) == b * q + r
  {
    DigitRead(r);
    ValueMore(Numeral(q, b), DigitChar(r), b);
  }

  lemma CharRead(c: char)
    requires CharDigit(c) < 36
    ensures DigitChar(CharDigit(c)) == c
  {
  }

  /** A numeral as it is written: digits, and no zero in front. */
  predicate Written(s: string, b: nat) {
    s != "" && AllDigits(s, b) && (|s| == 1 || s[0] != '0')
  }

  lemma {:induction false} NumeralWritten(n: nat, b: nat)
    requires 2 <= b <= 36
    ensures Written(Numeral(n, b), b)
    ensures n > 0 ==> Numeral(n, b)[0] != '0'
    decreases n
  {
    if n >= b {
      Division(n, b);
      PositiveQuotient(n, b);
      NumeralWritten(n / b, b);
    }
  }

  lemma PositiveQuotient(n: nat, b: nat)
    requires n >= b > 0
    ensures n / b > 0
  {
  }

  lemma {:induction false} WrittenPositive(s: string, b: nat)
    requires 2 <= b <= 36 && Written(s, b) && s[0] != '0'
    ensures ValueOf(s, b) > 0
    decreases |s|
  {
    if |s| > 1 {
      var t := s[..|s| - 1];
      WrittenPositive(t, b);
      AtLeastFactor(b, ValueOf(t, b));
    } else {
      assert s[..0] == "" && ValueOf("", b) == 0;
    }
  }

  /** Writing the number of a numeral gives the numeral back. */
  lemma {:induction false} ValueWritten(s: string, b: nat)
    requires 2 <= b <= 36 && Written(s, b)
    ensures Numeral(ValueOf(s, b), b) == s
    decreases |s|
  {
    var n := |s| - 1;
    CharRead(s[n]);
    if n == 0 {
      assert s[..0] == "" && ValueOf("", b) == 0;
    } else {
      var t := s[..n];
      LastDigit(s, b);
      ValueWritten(t, b);
      NumeralMore(ValueOf(s, b), ValueOf(t, b), CharDigit(s[n]), b);
      assert s == t + [s[n]];
    }
  }

  lemma NumeralMore(n: nat, q: nat, r: nat, b: nat)
    requires 2 <= b <= 36 && r < b <= n && n / b == q && n % b == r
    ensures Numeral(n, b) == Numeral(q, b) + [DigitChar(r)]
  {
  }

  /** The last digit of a numeral and what stands before it. */
  lemma LastDigit(s: string, b: nat)
    requires 2 <= b <= 36 && |s| > 1 && Written(s, b)
    ensures var n := ValueOf(s, b);
            b <= n && n / b == ValueOf(s[..|s| - 1], b) && n % b == CharDigit(s[|s| - 1])
  {
    var t := s[..|s| - 1];
    WrittenPositive(t, b);
    AtLeastFactor(b, ValueOf(t, b));
    Quotient(ValueOf(s, b), ValueOf(t, b), CharDigit(s[|s| - 1]), b);
  }

  lemma Quotient(n: nat, q: nat, r: nat, b: nat)
    requires b > 0 && r < b && n == b * q + r
    ensures n / b == q && n % b == r
  {
    Division(n, b);
    var p, s := n / b, n % b;
    assert b * (p - q) == r - s && b * (q - p) == s - r;
    if p > q {
      AtLeastFactor(b, p - q);
    } else if q > p {
      AtLeastFactor(b, q - p);
    }
  }

  lemma AtLeastFactor(b: nat, d: nat)
    requires d >= 1
    ensures b * d >= b
  {
  }

  /** Read in a larger base, a numeral stands for no less. */
  lemma {:induction false} ValueGrowsWithBase(s: string, a: nat, b: nat)
    requires a <= b
    ensures ValueOf(s, a) <= ValueOf(s, b)
    decreases |s|
  {
    if s != "" {
      var x, y := ValueOf(s[..|s| - 1], a), ValueOf(s[..|s| - 1], b);
      ValueGrowsWithBase(s[..|s| - 1], a, b);
      ProductGrows(a, x, b, y);
    }
  }

  lemma ProductGrows(a: nat, x: nat, b: nat, y: nat)
    requires a <= b && x <= y
    ensures a * x <= b * y
  {
    assert b * y - a * x == (b - a) * y + a * (y - x);
    AtLeastZero(b - a, y);
    AtLeastZero(a, y - x);
  }

  lemma AtLeastZero(x: nat, y: nat)
    ensures x * y >= 0
  {
  }

  lemma ValueMore(s: string, c: char, b: nat)
    ensures ValueOf(s + [c], b) == b * ValueOf(s, b) + CharDigit(c)
  {
    assert (s + [c])[..|s + [c]| - 1] == s;
  }

  lemma Division(n: nat, b: nat)
    requires b > 0
    ensures b * (n / b) + n % b == n
    ensures 2 <= b <= n ==> n / b < n
  {
  }

  /** strconv.Itoa. */
  function Decimal(n: int): string {
    if n < 0 then "-" + Numeral(-n, 10) else Numeral(n, 10)
  }

  /** strconv.ParseInt in base ten with 64 bits. */
  function ParseInt(s: string): Option<int> {
    var signed := s != "" && (s[0] == '-' || s[0] == '+');
    var digits := if signed then s[1..] else s;
    if digits == "" || !AllDigits(digits, 10) then None
    else
      var n: int := if signed && s[0] == '-' then 0 - ValueOf(digits, 10) else ValueOf(digits, 10);
      if IsInt64(n) then Some(n) else None
  }

  lemma NumeralHasNoSign(n: nat)
    ensures Numeral(n, 10)[0] != '-' && Numeral(n, 10)[0] != '+'
  {
    assert CharDigit(Numeral(n, 10)[0]) < 10;
  }

  /** strconv.ParseInt undoes strconv.Itoa. */
  lemma DecimalParsed(n: int)
    requires IsInt64(n)
    ensures ParseInt(Decimal(n)) == Some(n)
  {
    var m := if n < 0 then -n else n;
    NumeralValue(m, 10);
    NumeralHasNoSign(m);
    if n < 0 {
      assert Decimal(n)[1..] == Numeral(m, 10);
    }
  }
}
