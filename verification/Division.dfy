/** Quotients and remainders by a positive number that is not a literal. */
module Division {

  lemma MulGrows(k: int, n: nat)
    requires 1 <= k
    ensures n <= k * n
  {
  }

  lemma NonzeroMultiple(k: int, n: nat)
    ensures 1 <= k ==> n <= k * n
    ensures k <= -1 ==> k * n + n <= 0
  {
    if 1 <= k { MulGrows(k, n); }
    if k <= -1 {
      MulGrows(-k, n);
      assert (-k) * n == -(k * n);
    }
  }

  /** Quotient and remainder are unique. */
  lemma DivUnique(x: int, q: int, r: nat, n: nat)
    requires r < n && x == q * n + r
    ensures x / n == q && x % n == r
  {
    var d := x / n;
    assert x == d * n + x % n;
    assert (d - q) * n == r - x % n;
    NonzeroMultiple(d - q, n);
  }

  lemma MultipleOf(q: int, n: nat)
    requires 0 < n
    ensures q * n % n == 0 && q * n / n == q
  {
    DivUnique(q * n, q, 0, n);
  }

  lemma Distribute(x: int, y: int, n: int)
    ensures (x + y) * n == x * n + y * n
  {
  }

  lemma SlotOrder(i: int, j: int, n: nat)
    requires i < j
    ensures i * n + n <= j * n
  {
    Distribute(i, j - i, n);
    MulGrows(j - i, n);
  }

  /** Numbers with the same remainder are equal or at least the divisor apart. */
  lemma SameResidue(x: nat, y: nat, n: nat)
    requires 0 < n && x <= y && x % n == y % n
    ensures x == y || x + n <= y
  {
    var k := y / n - x / n;
    assert x == x / n * n + x % n && y == y / n * n + y % n;
    assert y - x == k * n;
    NonzeroMultiple(k, n);
  }

  /** Stepping around a ring of size `n`. */
  lemma NextResidue(x: nat, n: nat)
    requires 0 < n
    ensures (x % n + 1) % n == (x + 1) % n
  {
    var q, r := x / n, x % n;
    assert x == q * n + r;
    if r + 1 < n {
      DivUnique(x + 1, q, r + 1, n);
      DivUnique(r + 1, 0, r + 1, n);
    } else {
      Distribute(q, 1, n);
      DivUnique(x + 1, q + 1, 0, n);
      DivUnique(r + 1, 1, 0, n);
    }
  }
}
