/** Division facts the solver should not have to find by itself. */
module Arithmetic {

  lemma StepUp(a: nat, b: nat, d: nat)
    requires a < b
    ensures (a + 1) * d <= b * d
  {
  }

  lemma ProductGrows(a: nat, b: nat, d: nat)
    requires a <= b
    ensures a * d <= b * d
  {
  }

  /** A quotient and a remainder determine each other. */
  lemma QuotientIs(x: nat, d: nat, q: nat, r: nat)
    requires 0 < d && r < d && x == q * d + r
    ensures x / d == q && x % d == r
  {
    var p := x / d;
    if p < q {
      StepUp(p, q, d);
    }
    if q < p {
      StepUp(q, p, d);
    }
  }

  lemma OneMore(q: nat, d: nat)
    ensures (q + 1) * d == q * d + d
  {
  }

  lemma DivOneMore(x: nat, d: nat)
    requires 0 < d
    ensures (x + d) / d == x / d + 1 && (x + d) % d == x % d
  {
    OneMore(x / d, d);
    QuotientIs(x + d, d, x / d + 1, x % d);
  }

  lemma Small(x: nat, d: nat)
    requires x < d
    ensures x / d == 0 && x % d == x
  {
    QuotientIs(x, d, 0, x);
  }

  lemma Swap(a: nat, b: nat)
    ensures a * b == b * a
  {
  }

  lemma Distribute(a: nat, b: nat, d: nat)
    ensures (a + b) * d == a * d + b * d
  {
  }

  lemma QuotientTimes(m: nat, d: nat)
    requires 0 < d
    ensures m / d * d <= m < m / d * d + d
  {
  }

  /** Comparing with a quotient is comparing the product. */
  lemma QuotientBound(a: nat, d: nat, m: nat)
    requires 0 < d
    ensures a <= m / d <==> a * d <= m
  {
    QuotientTimes(m, d);
    if a <= m / d {
      ProductGrows(a, m / d, d);
    } else {
      StepUp(m / d, a, d);
      OneMore(m / d, d);
    }
  }

  lemma NotSmaller(a: nat, d: nat)
    requires 0 < d
    ensures a <= a * d
  {
    ProductGrows(1, d, a);
    Swap(a, d);
  }

  function CeilDiv(n: nat, d: nat): nat
    requires 0 < d
  {
    (n + d - 1) / d
  }

  lemma CeilOfNone(d: nat)
    requires 0 < d
    ensures CeilDiv(0, d) == 0
  {
    Small(d - 1, d);
  }

  lemma CeilOfOne(x: nat, d: nat)
    requires 0 < x <= d
    ensures CeilDiv(x, d) == 1
  {
    QuotientIs(x + d - 1, d, 1, x - 1);
  }

  lemma CeilStep(x: nat, d: nat)
    requires 0 < d
    ensures CeilDiv(x + d, d) == CeilDiv(x, d) + 1
  {
    DivOneMore(x + d - 1, d);
  }

  lemma CeilOfMore(x: nat, d: nat)
    requires 0 < d < x
    ensures CeilDiv(x, d) >= 2
  {
    QuotientBound(2, d, x + d - 1);
  }

  /** The least number of d-sized parts that hold x. */
  lemma CeilBounds(x: nat, d: nat)
    requires 0 < x && 0 < d
    ensures 0 < CeilDiv(x, d)
    ensures d * (CeilDiv(x, d) - 1) < x <= d * CeilDiv(x, d)
  {
    var n := CeilDiv(x, d);
    QuotientTimes(x + d - 1, d);
    QuotientBound(1, d, x + d - 1);
    OneMore(n - 1, d);
    Swap(n, d);
    Swap(n - 1, d);
  }

  /** A ring index moved on, not past the ring's end. */
  lemma RingIndex(x: nat, slots: nat)
    requires 0 < slots && x <= slots
    ensures x % slots == if x == slots then 0 else x
  {
    if x == slots {
      QuotientIs(x, slots, 1, 0);
    } else {
      Small(x, slots);
    }
  }
}
