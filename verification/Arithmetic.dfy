/** Division and remainder by a positive number: what ring indices and rotations rest on. */
module Arithmetic {

  lemma OnlyMultiple(n: int, k: int)
    requires -n < n * k < n
    ensures k == 0
  {
  }

  lemma DivUnique(n: nat, q: nat, r: nat)
    requires r < n
    ensures (n * q + r) / n == q && (n * q + r) % n == r
  {
    var x := n * q + r;
    assert x == n * (x / n) + x % n;
    assert n * (x / n - q) == r - x % n;
    OnlyMultiple(n, x / n - q);
  }

  /** How remainder and quotient move on. */
  lemma Successor(k: nat, n: nat)
    requires n > 0
    ensures (k + 1) % n == if k % n + 1 == n then 0 else k % n + 1
    ensures (k + 1) / n == if k % n + 1 == n then k / n + 1 else k / n
  {
    assert k == n * (k / n) + k % n;
    if k % n + 1 == n {
      assert k + 1 == n * (k / n + 1) + 0;
      DivUnique(n, k / n + 1, 0);
    } else {
      assert k + 1 == n * (k / n) + (k % n + 1);
      DivUnique(n, k / n, k % n + 1);
    }
  }

  /** One full turn further. */
  lemma NextLap(n: nat, k: nat)
    requires n > 0
    ensures (k + n) % n == k % n && (k + n) / n == k / n + 1
  {
    assert k == n * (k / n) + k % n;
    assert k + n == n * (k / n + 1) + k % n;
    DivUnique(n, k / n + 1, k % n);
  }

  /** Numbers less than n apart have the same remainder only if they are equal. */
  lemma SameRemainder(n: nat, i: nat, j: nat)
    requires n > 0 && i <= j < i + n && i % n == j % n
    ensures i == j
  {
    assert i == n * (i / n) + i % n && j == n * (j / n) + j % n;
    assert n * (j / n - i / n) == j - i;
    OnlyMultiple(n, j / n - i / n);
  }

  /** Every remainder occurs among n consecutive numbers. */
  lemma Covered(n: nat, p: nat, i: nat) returns (k: nat)
    requires i < n
    ensures p <= k < p + n && k % n == i
  {
    var q, r := p / n, p % n;
    assert p == n * q + r;
    if i >= r {
      k := n * q + i;
      DivUnique(n, q, i);
    } else {
      k := n * (q + 1) + i;
      DivUnique(n, q + 1, i);
    }
  }

  /** Dividing twice is dividing by the product. */
  lemma DivDiv(n: nat, a: nat, b: nat)
    requires a > 0 && b > 0
    ensures a * b > 0 && n / a / b == n / (a * b)
  {
    var q, r := n / a, n % a;
    var q2, r2 := q / b, q % b;
    assert n == a * q + r;
    assert q == b * q2 + r2;
    assert n / (a * b) == q2 by { Nested(a, b, q2, r2, r); }
  }

  lemma Nested(a: nat, b: nat, q: nat, r2: nat, r: nat)
    requires r < a && r2 < b
    ensures a * b > 0 && (a * (b * q + r2) + r) / (a * b) == q
  {
    Distributed(a, b, q, r2);
    Below(a, b, r2, r);
    DivUnique(a * b, q, a * r2 + r);
  }

  lemma Distributed(a: nat, b: nat, q: nat, r: nat)
    ensures a * (b * q + r) == (a * b) * q + a * r
  {
  }

  lemma Below(a: nat, b: nat, r2: nat, r: nat)
    requires r < a && r2 < b
    ensures a * r2 + r < a * b
  {
    assert a * (r2 + 1) <= a * b;
  }
}
