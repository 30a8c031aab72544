/** Rounding to page and alignment boundaries (efence.c:495-508, 566-570). */
module PageMath {
  predicate Multiple(x: int, p: int)
    requires p > 0
  {
    x % p == 0
  }

  lemma MultipleOf(k: int, p: int)
    requires p > 0
    ensures Multiple(k * p, p)
  {
    Unique(k * p, p, k, 0);
  }

  lemma Unique(x: int, p: int, q: int, r: int)
    requires p > 0 && x == q * p + r && 0 <= r < p
    ensures x % p == r && x / p == q
  {
    var q', r' := x / p, x % p;
    assert (q - q') * p == r' - r;
    StepsAway(q - q', p);
  }

  lemma StepsAway(d: int, p: int)
    requires p > 0
    ensures d >= 1 ==> d * p >= p
    ensures d <= -1 ==> d * p <= -p
  {
  }

  lemma Quotient(x: int, p: int)
    requires p > 0 && Multiple(x, p)
    ensures x == x / p * p
  {
  }

  lemma SumMultiple(a: int, b: int, p: int)
    requires p > 0 && Multiple(a, p) && Multiple(b, p)
    ensures Multiple(a + b, p) && Multiple(a - b, p)
  {
    Quotient(a, p);
    Quotient(b, p);
    MultipleOf(a / p + b / p, p);
    MultipleOf(a / p - b / p, p);
    assert (a / p + b / p) * p == a + b && (a / p - b / p) * p == a - b;
  }

  /** The two-line rounding idiom of the allocator. */
  function RoundUp(x: nat, m: nat): (r: nat)
    requires m > 0
    ensures x <= r < x + m
  {
    if x % m != 0 then x + m - x % m else x
  }

  lemma RoundUpIsMultiple(x: nat, m: nat)
    requires m > 0
    ensures Multiple(RoundUp(x, m), m)
  {
    if x % m != 0 {
      MultipleOf(x / m + 1, m);
      assert (x / m + 1) * m == x + m - x % m;
    }
  }

  lemma OneMultiple(p: int)
    requires p > 0
    ensures Multiple(p, p)
  {
    MultipleOf(1, p);
  }

  lemma MultipleTwice(x: int, p: int, q: int)
    requires p > 0 && q > 0 && Multiple(x, p) && Multiple(p, q)
    ensures Multiple(x, q)
  {
    Quotient(x, p);
    Quotient(p, q);
    MultipleOf(x / p * (p / q), q);
    assert x / p * (p / q) * q == x / p * (p / q * q);
  }
}
