/** Facts about division and remainders that several components need. */
module Arithmetic {
  lemma LessThanOne(n: nat, k: int)
    requires 0 < n && n * k < n
    ensures k <= 0
  {}

  lemma DivMonotone(a: nat, b: nat, n: nat)
    requires 0 < n && a <= b
    ensures a / n <= b / n
  {
    var q, r := a / n, b / n;
    assert a == n * q + a % n && b == n * r + b % n;
    assert n * (q - r) == n * q - n * r;
    LessThanOne(n, q - r);
  }

  /** Numbers less than `n` apart have different remainders. */
  lemma RemaindersDiffer(a: nat, b: nat, n: nat)
    requires 0 < n && a < b < a + n
    ensures a % n != b % n
  {
    if a % n == b % n {
      var q, r := a / n, b / n;
      assert n * (r - q) == b - a;
      LessThanOne(n, r - q);
    }
  }

  lemma WrapOnce(x: nat, n: nat)
    requires 0 < n && x < 2 * n
    ensures x % n == if x < n then x else x - n
  {
    if x >= n {
      assert x == n + (x - n);
    }
  }
}
