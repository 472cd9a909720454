/**
 Division by a variable, as named functions with the few laws the models need, so
 that the products stay out of the larger proofs; and positions around a ring.
 */
module Arithmetic {

  function Quotient(v: nat, m: nat): nat
    requires m > 0
  {
    v / m
  }

  function Rest(v: nat, m: nat): (r: nat)
    requires m > 0
    ensures r < m && r <= v
  {
    v % m
  }

  lemma Divided(v: nat, m: nat)
    requires m > 0
    ensures v == Quotient(v, m) * m + Rest(v, m)
  {
  }

  lemma Distribute(a: int, b: int, c: int)
    ensures (a + b) * c == a * c + b * c
  {
  }

  lemma Associate(a: int, b: int, c: int)
    ensures a * b * c == a * (b * c)
  {
  }

  /** Division is determined by its defining equation. */
  lemma DivUnique(v: nat, q: nat, m: nat, r: nat)
    requires r < m && v == q * m + r
    ensures Quotient(v, m) == q && Rest(v, m) == r
  {
    hide Quotient, Rest;
    var d := Quotient(v, m);
    Divided(v, m);
    Distribute(d, q - d, m);
    assert (q - d) * m == Rest(v, m) - r;
    Smallest(q - d, m);
  }

  lemma Smallest(x: int, m: int)
    requires -m < x * m < m
    ensures x == 0
  {
  }

  lemma Positive(a: nat, b: nat)
    ensures a * b >= 0
  {
  }

  /** Counting up by one. */
  lemma RestStep(x: nat, m: nat)
    requires m > 0
    ensures Rest(x + 1, m) == if Rest(x, m) + 1 == m then 0 else Rest(x, m) + 1
  {
    hide Quotient, Rest;
    var q, r := Quotient(x, m), Rest(x, m);
    Divided(x, m);
    if r + 1 == m {
      Distribute(q, 1, m);
      DivUnique(x + 1, q + 1, m, 0);
    } else {
      DivUnique(x + 1, q, m, r + 1);
    }
  }

  /** Two numbers leave the same rest exactly when they differ by a multiple. */
  lemma RestEqual(x: nat, y: nat, m: nat)
    requires m > 0 && x <= y
    ensures Rest(x, m) == Rest(y, m) <==> Rest(y - x, m) == 0
  {
    hide Quotient, Rest;
    if Rest(y - x, m) == 0 {
      RestOfMultiple(x, y, m);
    }
    if Rest(x, m) == Rest(y, m) {
      MultipleOfRest(x, y, m);
    }
  }

  lemma RestOfMultiple(x: nat, y: nat, m: nat)
    requires m > 0 && x <= y && Rest(y - x, m) == 0
    ensures Rest(x, m) == Rest(y, m)
  {
    hide Quotient, Rest;
    var q, d := Quotient(x, m), Quotient(y - x, m);
    Divided(x, m);
    Divided(y - x, m);
    Distribute(q, d, m);
    DivUnique(y, q + d, m, Rest(x, m));
  }

  lemma MultipleOfRest(x: nat, y: nat, m: nat)
    requires m > 0 && x <= y && Rest(x, m) == Rest(y, m)
    ensures Rest(y - x, m) == 0
  {
    hide Quotient, Rest;
    var q, p := Quotient(x, m), Quotient(y, m);
    Divided(x, m);
    Divided(y, m);
    Distribute(q, p - q, m);
    NotNegative(p - q, m);
    DivUnique(y - x, p - q, m, 0);
  }

  lemma NotNegative(x: int, m: nat)
    requires m > 0 && x * m >= 0
    ensures x >= 0
  {
  }

  /** Steps from one position to another around a ring of n. */
  function Distance(from: nat, to: nat, n: nat): (d: nat)
    requires from < n && to < n
    ensures d < n
  {
    if to >= from then to - from else to - from + n
  }

  /** The position k steps further around. */
  function Onward(from: nat, k: nat, n: nat): (i: nat)
    requires from < n && k <= n
    ensures i < n
  {
    if from + k < n then from + k else from + k - n
  }

  lemma DistanceInverse(from: nat, to: nat, d: nat, n: nat)
    requires from < n && to < n && d < n
    ensures Onward(from, d, n) == to <==> Distance(from, to, n) == d
  {
  }

  lemma NextPosition(i: nat, n: nat)
    requires i < n
    ensures (i + 1) % n == if i + 1 == n then 0 else i + 1
  {
  }
}
