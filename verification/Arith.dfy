/** The few facts of non-linear arithmetic that the proofs need, one at a time. */
module Arith {

  lemma MulMonotone(a: nat, b: nat, c: nat)
    requires b <= c
    ensures a * b <= a * c
  {
  }

  lemma MulSub(a: int, b: int, k: int)
    ensures (a - b) * k == a * k - b * k
  {
  }

  /** Quotient and remainder are unique. */
  lemma QuotientUnique(k: nat, q: int, r: nat, q': int, r': nat)
    requires r < k && r' < k
    requires q * k + r == q' * k + r'
    ensures q == q' && r == r'
  {
    MulSub(q, q', k);
    if q > q' {
      MulMonotone(k, 1, q - q');
      assert false;
    } else if q < q' {
      MulSub(q', q, k);
      MulMonotone(k, 1, q' - q);
      assert false;
    }
  }

  lemma DivMod(n: nat, k: nat)
    requires k > 0
    ensures n == n / k * k + n % k
  {
  }

  lemma DivModUnique(n: nat, k: nat, q: nat, r: nat)
    requires r < k && n == q * k + r
    ensures n / k == q && n % k == r
  {
    DivMod(n, k);
    QuotientUnique(k, q, r, n / k, n % k);
  }

  /** Counting one further: the remainder goes up by one or wraps to zero. */
  lemma Successor(n: nat, k: nat)
    requires k > 0
    ensures n % k + 1 < k ==> (n + 1) / k == n / k && (n + 1) % k == n % k + 1
    ensures n % k + 1 == k ==> (n + 1) / k == n / k + 1 && (n + 1) % k == 0
  {
    var q, r := n / k, n % k;
    DivMod(n, k);
    if r + 1 < k {
      DivModUnique(n + 1, k, q, r + 1);
    } else {
      MulSub(q + 1, q, k);
      DivModUnique(n + 1, k, q + 1, 0);
    }
  }

  lemma AddModulus(n: nat, k: nat)
    requires k > 0
    ensures (n + k) / k == n / k + 1 && (n + k) % k == n % k
  {
    var q := n / k;
    DivMod(n, k);
    assert (q + 1) * k == q * k + k by { MulSub(q + 1, q, k); }
    DivModUnique(n + k, k, q + 1, n % k);
  }

  lemma ModOfProduct(a: nat, b: nat)
    requires a > 0
    ensures (b * a) % a == 0
  {
    DivModUnique(b * a, a, b, 0);
  }
}
