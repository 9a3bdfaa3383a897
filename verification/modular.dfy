/** Facts about Euclidean division on naturals that the ring-buffer proofs
    lean on: quotient and remainder are unique, and two counters closer
    together than the modulus land on the same residue only when equal. */
module Modular {

  /** A positive multiple of d is at least d. */
  lemma {:induction false} MulAtLeast(d: nat, x: nat)
    requires 1 <= x
    ensures d <= d * x
  {
    if x > 1 {
      MulAtLeast(d, x - 1);
      assert d * x == d * (x - 1) + d;
    }
  }

  /** Distribution of a product over a difference. */
  lemma MulSub(d: nat, a: nat, b: nat)
    requires b <= a
    ensures d * a == d * b + d * (a - b)
  {
  }

  /** Any decomposition n == d * a + m with 0 <= m < d is the one `/` and `%` compute. */
  lemma DivModUnique(n: nat, d: nat, a: nat, m: nat)
    requires m < d
    requires n == d * a + m
    ensures n / d == a && n % d == m
  {
    var q, r := n / d, n % d;
    assert n == d * q + r && r < d;
    if a < q {
      MulSub(d, q, a);
      MulAtLeast(d, q - a);
      assert false;
    } else if q < a {
      MulSub(d, a, q);
      MulAtLeast(d, a - q);
      assert false;
    }
  }

  /** Two multiples of d that differ are at least d apart. */
  lemma MultiplesApart(d: nat, a: nat, b: nat)
    requires a < b
    ensures d * a + d <= d * b
  {
    MulSub(d, b, a);
    MulAtLeast(d, b - a);
  }

  /** Two counters inside one window of width c share a residue only when they are equal. */
  lemma SameResidueInWindow(lo: nat, n: nat, m: nat, c: nat)
    requires 0 < c
    requires lo <= n < lo + c && lo <= m < lo + c
    requires n % c == m % c
    ensures n == m
  {
    var qn, qm, r := n / c, m / c, n % c;
    assert n == c * qn + r;
    assert m == c * qm + r;
    if qn < qm {
      MultiplesApart(c, qn, qm);
    } else if qm < qn {
      MultiplesApart(c, qm, qn);
    }
  }

  /** Each residue p below c is taken by exactly one counter of a window of
      width c: the one written k * c + p. */
  lemma LapInWindow(lo: nat, c: nat, p: nat) returns (k: nat)
    requires p < c
    ensures lo <= k * c + p < lo + c
    ensures (k * c + p) % c == p
  {
    var a, r := lo / c, lo % c;
    assert lo == a * c + r;
    if r <= p {
      k := a;
    } else {
      k := a + 1;
      assert k * c == a * c + c;
    }
    DivModUnique(k * c + p, c, k, p);
  }

  /** Stepping i < c places on from n moves the residue i places on, wrapping
      round at c. */
  lemma ResidueAhead(n: nat, c: nat, i: nat)
    requires i < c
    ensures (n + i) % c == if n % c + i < c then n % c + i else n % c + i - c
  {
    var a, r := n / c, n % c;
    assert n == c * a + r;
    if r + i < c {
      DivModUnique(n + i, c, a, r + i);
    } else {
      assert c * (a + 1) == c * a + c;
      DivModUnique(n + i, c, a + 1, r + i - c);
    }
  }

  /** Adding the modulus does not change the residue. */
  lemma AddModulus(n: nat, c: nat)
    requires 0 < c
    ensures (n + c) % c == n % c
  {
    DivModUnique(n + c, c, n / c + 1, n % c);
  }
}
