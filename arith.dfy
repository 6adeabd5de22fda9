/** Facts about Euclidean division by a positive divisor, used for the
    round-robin index arithmetic. */
module Arith {

  /** Division and remainder are determined by any decomposition k == a * p + r with 0 <= r < p. */
  lemma DivModUnique(k: int, p: int, a: int, r: int)
    requires p > 0 && 0 <= r < p && k == a * p + r
    ensures k / p == a && k % p == r
  {
    var a', r' := k / p, k % p;
    assert k == a' * p + r';
    assert (a - a') * p == r' - r;
    if a > a' {
      MulAtLeast(a - a', p);
      assert false;
    } else if a < a' {
      MulAtLeast(a' - a, p);
      assert false;
    }
  }

  lemma MulAtLeast(m: int, p: int)
    requires m >= 1 && p > 0
    ensures m * p >= p
  {
  }

  /** k leaves remainder q iff q <= k and k - q is a multiple of p. */
  lemma ModResidue(k: nat, p: nat, q: nat)
    requires q < p
    ensures (q <= k && (k - q) % p == 0) <==> k % p == q
  {
    if k % p == q {
      DivModUnique(k - q, p, k / p, 0);
    }
    if q <= k && (k - q) % p == 0 {
      DivModUnique(k, p, (k - q) / p, q);
    }
  }

  /** Advancing by one moves the remainder round the cycle 0, 1, ..., p - 1, 0, ... */
  lemma ModSucc(k: nat, p: nat)
    requires p > 0
    ensures (k + 1) % p == if k % p + 1 == p then 0 else k % p + 1
  {
    if k % p + 1 == p {
      DivModUnique(k + 1, p, k / p + 1, 0);
    } else {
      DivModUnique(k + 1, p, k / p, k % p + 1);
    }
  }

  /** Subtracting the divisor keeps the remainder. */
  lemma ModMinusDivisor(d: int, p: int)
    requires p > 0
    ensures (d - p) % p == d % p
  {
    DivModUnique(d - p, p, d / p - 1, d % p);
  }
}
