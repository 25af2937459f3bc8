/** internal/hydrate/engine.go: which ordinals of a nullable column are NULL. */
module Nulls {

  /** isNullAt, for an ordinal of the table. */
  predicate IsNullAt(ord: nat, p: real) {
    if p <= 0.0 then false
    else if p >= 1.0 then true
    else ((ord + 1) as real * p).Floor > (ord as real * p).Floor
  }

  /** How many of the first n ordinals are NULL. */
  function NullCount(n: nat, p: real): nat {
    if n == 0 then 0 else NullCount(n - 1, p) + if IsNullAt(n - 1, p) then 1 else 0
  }

  lemma NextProduct(n: nat, p: real)
    requires 0.0 < p < 1.0
    ensures n as real * p <= (n + 1) as real * p < n as real * p + 1.0
  {
    assert (n + 1) as real * p == n as real * p + p;
  }

  /** For every fraction and every row count, exactly floor(n * p) ordinals are NULL. */
  lemma {:induction false} NullCountIsFloor(n: nat, p: real)
    requires 0.0 <= p <= 1.0
    ensures NullCount(n, p) == (n as real * p).Floor
  {
    if n > 0 {
      NullCountIsFloor(n - 1, p);
      if p == 1.0 {
        assert n as real * p == n as real;
      } else if p > 0.0 {
        NextProduct(n - 1, p);
      } else {
        assert n as real * p == 0.0;
      }
    } else {
      assert 0 as real * p == 0.0;
    }
  }

  /** So the share of NULLs among n rows is within 1/n of the fraction. */
  lemma NullShareClose(n: nat, p: real)
    requires 0.0 <= p <= 1.0
    ensures n as real * p - 1.0 < NullCount(n, p) as real <= n as real * p
  {
    NullCountIsFloor(n, p);
  }

  /** How many of n rows a fraction asks for: none below zero, all above one. */
  function NullsAsked(n: nat, p: real): int {
    if p <= 0.0 then 0 else if p >= 1.0 then n else (n as real * p).Floor
  }

  lemma {:induction false} NullCountIsAsked(n: nat, p: real)
    ensures NullCount(n, p) == NullsAsked(n, p)
  {
    if 0.0 < p < 1.0 {
      NullCountIsFloor(n, p);
    } else if n > 0 {
      NullCountIsAsked(n - 1, p);
    }
  }
}
