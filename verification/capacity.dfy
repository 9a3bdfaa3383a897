/** Capacity rounding and slot masking (include/lockfree_queue.h, constructor
    and the `n & mask` index computations).  The realised capacity is a power
    of two so that a counter can be mapped to a slot with a bitwise AND. */
module Capacity {
  import opened Modular

  /** n is one of 1, 2, 4, 8, ... */
  predicate IsPow2(n: nat)
    decreases n
  {
    n == 1 || (2 <= n && n % 2 == 0 && IsPow2(n / 2))
  }

  /** Doubling keeps a power of two a power of two. */
  lemma DoublePow2(p: nat)
    requires IsPow2(p)
    ensures IsPow2(2 * p)
  {
    assert (2 * p) / 2 == p;
  }

  /** Of two distinct powers of two, the larger is at least twice the smaller. */
  lemma {:induction false} Pow2Gap(a: nat, k: nat)
    requires IsPow2(a) && IsPow2(k) && a < k
    ensures 2 * a <= k
  {
    if a != 1 {
      Pow2Gap(a / 2, k / 2);
    }
  }

  /** The smallest power of two that is at least n, searching upwards from p. */
  function CeilFrom(n: nat, p: nat): (r: nat)
    requires IsPow2(p)
    ensures IsPow2(r) && n <= r && p <= r
    ensures r == p || r / 2 < n
    decreases if p < n then n - p else 0
  {
    if n <= p then p
    else
      DoublePow2(p);
      CeilFrom(n, 2 * p)
  }

  /** std::bit_ceil: the smallest power of two not less than n (1 for n == 0). */
  function BitCeil(n: nat): (r: nat)
    ensures IsPow2(r) && n <= r
    ensures r == 1 || r / 2 < n
  {
    CeilFrom(n, 1)
  }

  /** No power of two at least n lies below BitCeil(n). */
  lemma BitCeilIsLeast(n: nat, k: nat)
    requires IsPow2(k) && n <= k
    ensures BitCeil(n) <= k
  {
    var r := BitCeil(n);
    if r != 1 && k < r {
      assert IsPow2(r / 2);
      if r / 2 < k {
        Pow2Gap(r / 2, k);
      }
    }
  }

  /** The queue constructor's capacity: max(2, bit_ceil(requested)). */
  function RealCapacity(requested: nat): (c: nat)
    ensures IsPow2(c) && 2 <= c && requested <= c
    ensures c == 2 || c / 2 < requested
  {
    var b := BitCeil(requested);
    if b < 2 then 2 else b
  }

  /** The realised capacity is the least power of two that is both >= 2 and >= requested. */
  lemma RealCapacityIsLeast(requested: nat, k: nat)
    requires IsPow2(k) && 2 <= k && requested <= k
    ensures RealCapacity(requested) <= k
  {
    BitCeilIsLeast(requested, k);
  }

  /** The examples the constructor documents, plus requested 5. */
  lemma RealCapacityExamples()
    ensures RealCapacity(0) == 2 && RealCapacity(1) == 2
    ensures RealCapacity(3) == 4 && RealCapacity(5) == 8 && RealCapacity(8) == 8
  {
    assert BitCeil(3) == 4 by { assert CeilFrom(3, 2) == 4; }
    assert BitCeil(5) == 8 by { assert CeilFrom(5, 4) == 8; assert CeilFrom(5, 2) == 8; }
    assert BitCeil(8) == 8 by { assert CeilFrom(8, 4) == 8; assert CeilFrom(8, 2) == 8; }
  }

  /** Bitwise AND of two naturals, bit by bit from the least significant. */
  function And(a: nat, b: nat): (r: nat)
    ensures r <= a && r <= b
  {
    if a == 0 || b == 0 then 0
    else 2 * And(a / 2, b / 2) + (if a % 2 == 1 && b % 2 == 1 then 1 else 0)
  }

  /** Splitting off the low bit: n mod 2h is twice (n/2 mod h) plus n's low bit. */
  lemma ModDouble(n: nat, h: nat)
    requires 0 < h
    ensures n % (2 * h) == 2 * ((n / 2) % h) + n % 2
  {
    var q := n / 2;
    assert n == 2 * q + n % 2;
    assert q == h * (q / h) + q % h;
    assert n == (2 * h) * (q / h) + (2 * (q % h) + n % 2);
    DivModUnique(n, 2 * h, q / h, 2 * (q % h) + n % 2);
  }

  /** For a power-of-two capacity c, `n & (c - 1)` is `n % c`. */
  lemma {:induction false} MaskIsMod(n: nat, c: nat)
    requires IsPow2(c)
    ensures And(n, c - 1) == n % c
  {
    if c != 1 && n != 0 {
      var h := c / 2;
      assert c == 2 * h && IsPow2(h);
      assert (c - 1) / 2 == h - 1 && (c - 1) % 2 == 1;
      var low := if n % 2 == 1 then 1 else 0;
      assert low == n % 2;
      assert And(n, c - 1) == 2 * And(n / 2, h - 1) + low;
      MaskIsMod(n / 2, h);
      ModDouble(n, h);
    }
  }
}
