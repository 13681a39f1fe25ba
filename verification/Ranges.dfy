/** Quotients, and ranges of numbers. */
module Ranges {
  lemma AtLeast(d: int, n: nat)
    requires n > 0
    ensures d >= 1 ==> d * n >= n
  {
  }

  /** A quotient is the only number that fits. */
  lemma DivideAt(a: nat, n: nat, q: nat)
    requires n > 0 && q * n <= a < q * n + n
    ensures a / n == q
  {
    var d := a / n - q;
    assert d * n == a - a % n - q * n;
    AtLeast(d, n);
    AtLeast(-d, n);
  }

  predicate IsIn(i: nat, k: nat, n: nat) { k <= i < k + n }

  /** The n numbers from k on. */
  function Range(k: nat, n: nat): set<nat> {
    set i: nat | k <= i < k + n && IsIn(i, k, n)
  }

  lemma InRange(k: nat, n: nat, i: nat)
    ensures i in Range(k, n) <==> k <= i < k + n
  {
    assert IsIn(i, k, n) || !(k <= i < k + n);
  }

  lemma RangeHas(k: nat, n: nat)
    ensures forall i: nat :: i in Range(k, n) <==> k <= i < k + n
  {
    forall i: nat ensures i in Range(k, n) <==> k <= i < k + n {
      InRange(k, n, i);
    }
  }
}
