/** Number conversions the Go source performs, stated over unbounded integers
    and reals: 64-bit wrap-around, truncation toward zero, rounding half away
    from zero, and the saturating conversion of internal/hydrate/convert.go. */
module Numbers {

  const TWO_63: int := 0x8000_0000_0000_0000
  const TWO_64: int := 0x1_0000_0000_0000_0000
  const MAX_INT64: int := TWO_63 - 1
  const MIN_INT64: int := -TWO_63

  predicate IsInt64(x: int) {
    MIN_INT64 <= x <= MAX_INT64
  }

  /** The int64 that two's-complement arithmetic leaves for the mathematical value x. */
  function Wrap(x: int): (r: int)
    ensures IsInt64(r)
    ensures IsInt64(x) ==> r == x
    ensures MAX_INT64 < x <= MAX_INT64 + TWO_64 ==> r == x - TWO_64
    ensures MIN_INT64 - TWO_64 <= x < MIN_INT64 ==> r == x + TWO_64
  {
    (x + TWO_63) % TWO_64 - TWO_63
  }

  /** Go's integer division: the quotient is truncated toward zero. */
  function QuoTrunc(a: int, b: int): int
    requires b != 0
  {
    if (a >= 0) == (b > 0) then Abs(a) / Abs(b) else -(Abs(a) / Abs(b))
  }

  function Power(b: nat, k: nat): (p: nat)
    ensures b > 0 ==> p > 0
  {
    if k == 0 then 1 else b * Power(b, k - 1)
  }

  function Abs(a: int): nat {
    if a >= 0 then a else -a
  }

  function Max(a: int, b: int): int {
    if a > b then a else b
  }

  function MaxReal(a: real, b: real): real {
    if a > b then a else b
  }

  /** clamp in internal/hydrate/fanout.go: the lower bound is compared first. */
  function Clamp(v: int, lo: int, hi: int): int {
    if v < lo then lo else if v > hi then hi else v
  }

  /** Truncation toward zero, Go's float-to-int conversion inside the int64 range. */
  function Trunc(x: real): (r: int)
    ensures x >= 0.0 ==> r as real <= x < (r + 1) as real
    ensures x < 0.0 ==> (r - 1) as real < x <= r as real
  {
    if x >= 0.0 then x.Floor else -((-x).Floor)
  }

  /** math.Round: nearest integer, halves away from zero. */
  function Round(x: real): (r: int)
    ensures x - 0.5 <= r as real <= x + 0.5
    ensures x >= 0.0 ==> x - 0.5 < r as real && r >= 0
  {
    if x >= 0.0 then (x + 0.5).Floor else -((0.5 - x).Floor)
  }

  /** toI64: saturating at the nearer end, and truncating toward zero in between. */
  function ToI64(x: real): (r: int)
    ensures IsInt64(r)
    ensures x >= 0.0 ==> 0 <= r && (r as real <= x) && (r == MAX_INT64 || x < (r + 1) as real)
    ensures x < 0.0 ==> r <= 0 && (r == MIN_INT64 || (r - 1) as real < x) && (r > MIN_INT64 ==> x <= r as real)
    ensures x <= MIN_INT64 as real ==> r == MIN_INT64
  {
    if x >= TWO_63 as real then MAX_INT64
    else if x <= MIN_INT64 as real then MIN_INT64
    else Trunc(x)
  }

  lemma ProductMonotone(c: real, x: real, y: real)
    requires c >= 0.0 && x <= y
    ensures c * x <= c * y
  {
  }

  lemma RoundMonotone(x: real, y: real)
    requires x <= y
    ensures Round(x) <= Round(y)
  {
    if x >= 0.0 {
      assert (x + 0.5).Floor <= (y + 0.5).Floor;
    } else if y < 0.0 {
      assert (0.5 - y).Floor <= (0.5 - x).Floor;
    } else {
      assert (0.5 - x).Floor >= 0;
    }
  }

  /** An integer nearer to x than one half is what x rounds to. */
  lemma RoundNearest(x: real, c: int)
    requires 0 <= c
    requires c as real - 0.5 < x < c as real + 0.5
    ensures Round(x) == c
  {
    if x >= 0.0 {
      assert c as real < x + 0.5 < (c + 1) as real;
    } else {
      assert c == 0;
      assert 0.5 < 0.5 - x < 1.0;
    }
  }

  lemma ToI64Monotone(x: real, y: real)
    requires x <= y
    ensures ToI64(x) <= ToI64(y)
  {
    if x < 0.0 && y < 0.0 {
      assert (-y).Floor <= (-x).Floor;
    }
  }
}
