/** Natural-number facts used by the candidate-generation and partitioning proofs. */
module Arith {

  /** b raised to the power e. */
  function Pow(b: nat, e: nat): (r: nat)
    ensures b >= 1 ==> r >= 1
    ensures b == 0 && e >= 1 ==> r == 0
    decreases e
  {
    if e == 0 then 1 else b * Pow(b, e - 1)
  }

  /** A product of naturals is a natural. */
  lemma ProductNat(a: nat, b: nat)
    ensures a * b >= 0
  {
  }

  /** A product of naturals that is positive has a positive left factor. */
  lemma PositiveFactor(a: nat, p: nat)
    requires a * p > 0
    ensures a > 0
  {
  }

  /** Multiplying a nat by a larger factor never makes it smaller. */
  lemma MulMonotone(a: nat, b: nat, c: nat)
    requires a <= b
    ensures a * c <= b * c
  {
  }

  /** Reassociating and commuting a product of three factors. */
  lemma MulAssocComm(a: nat, b: nat, c: nat)
    ensures a * (b * c) == (a * c) * b
  {
  }

  /** Multiplication distributes over addition. */
  lemma MulDistrib(a: nat, b: nat, c: nat)
    ensures (a + b) * c == a * c + b * c
  {
  }

  /** Euclidean division is determined by any decomposition a == q*d + r with 0 <= r < d. */
  lemma {:induction false} DivModUnique(a: nat, d: nat, q: nat, r: nat)
    requires d > 0 && r < d && a == q * d + r
    ensures a / d == q && a % d == r
  {
    var q', r' := a / d, a % d;
    assert a == q' * d + r';
    if q < q' {
      MulMonotone(q + 1, q', d);
      assert false;
    } else if q' < q {
      MulMonotone(q' + 1, q, d);
      assert false;
    }
  }

  /** A number below n * p has quotient below n and remainder below p when divided by p. */
  lemma QuotientBelow(k: nat, n: nat, p: nat)
    requires p > 0 && k < n * p
    ensures k / p < n
  {
    if k / p >= n {
      MulMonotone(n, k / p, p);
      assert false;
    }
  }

  /** Appending a digit below n to a number f below p gives a number below p * n whose quotient and remainder are f and the digit. */
  lemma AppendDigit(f: nat, n: nat, d: nat, p: nat)
    requires d < n && f < p
    ensures (f * n + d) / n == f && (f * n + d) % n == d
    ensures f * n + d < n * p
  {
    DivModUnique(f * n + d, n, f, d);
    MulMonotone(f + 1, p, n);
    MulDistrib(f, 1, n);
  }

  /** Division by n is monotone, and two numbers with the same quotient are ordered by their remainders. */
  lemma DivOrdered(k1: nat, k2: nat, n: nat)
    requires n > 0 && k1 < k2
    ensures k1 / n <= k2 / n
    ensures k1 / n == k2 / n ==> k1 % n < k2 % n
  {
    if k1 / n > k2 / n {
      MulMonotone(k2 / n + 1, k1 / n, n);
      assert false;
    }
  }

  /** Below n * p, the quotients by n stay below p and are ordered like the numbers, ties broken by the remainders. */
  lemma QuotientsOrdered(k1: nat, k2: nat, n: nat, p: nat)
    requires n > 0 && k1 < k2 < n * p
    ensures k1 / n <= k2 / n < p
    ensures k1 / n == k2 / n ==> k1 % n < k2 % n
  {
    QuotientBelow(k2, p, n);
    DivOrdered(k1, k2, n);
  }

  /** Within fewer than n steps of k, no number has the same remainder modulo n as k. */
  lemma NoResidueWithin(k: nat, d: nat, n: nat)
    requires 0 < d < n
    ensures (k + d) % n != k % n
  {
    var q, r := k / n, k % n;
    if r + d < n {
      DivModUnique(k + d, n, q, r + d);
    } else {
      MulDistrib(q, 1, n);
      DivModUnique(k + d, n, q + 1, r + d - n);
    }
  }

  /** Adding n to k adds one to the quotient and keeps the remainder. */
  lemma NextResidue(k: nat, n: nat)
    requires n > 0
    ensures (k + n) % n == k % n && (k + n) / n == k / n + 1
  {
    MulDistrib(k / n, 1, n);
    DivModUnique(k + n, n, k / n + 1, k % n);
  }
}
