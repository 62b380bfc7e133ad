/** Facts about division that the solver does not find on its own. */
module Arithmetic {

  lemma {:induction false} AtLeastOneMultiple(n: nat, d: nat)
    requires n >= 1
    ensures n * d >= d
  {
    assert n * d == (n - 1) * d + d;
  }

  lemma QuotientIsUnique(d: nat, q: int, r: nat, q': int, r': nat)
    requires r < d && r' < d && q * d + r == q' * d + r'
    ensures q == q' && r == r'
  {
    if q > q' {
      AtLeastOneMultiple(q - q', d);
    } else if q < q' {
      AtLeastOneMultiple(q' - q, d);
    }
  }

  lemma QuotientAndRemainder(n: nat, d: nat, q: nat, r: nat)
    requires d > 0
    ensures q == n / d && r == n % d <==> n == q * d + r && r < d
  {
    var q', r' := n / d, n % d;
    assert n == q' * d + r';
    if n == q * d + r && r < d {
      QuotientIsUnique(d, q, r, q', r');
    }
  }

  lemma DivideExactly(k: int, d: nat)
    requires d > 0
    ensures k * d / d == k
  {
    var x := k * d;
    QuotientIsUnique(d, k, 0, x / d, x % d);
  }

  /** Taking away one divisor leaves the remainder. */
  lemma RemainderStep(n: nat, d: nat)
    requires n >= d > 0
    ensures (n - d) % d == n % d
  {
    var q, r := (n - d) / d, (n - d) % d;
    assert q * d + d == (q + 1) * d;
    QuotientIsUnique(d, n / d, n % d, q + 1, r);
  }

  lemma SmallRemainder(n: nat, d: nat)
    requires n < d
    ensures n % d == n
  {
    QuotientIsUnique(d, n / d, n % d, 0, n);
  }

  lemma {:induction false} MulMonotone(a: nat, b: nat, d: nat)
    requires a <= b
    ensures a * d <= b * d
  {
    assert b * d == a * d + (b - a) * d;
  }

  lemma NextMultiple(i: nat, d: nat)
    ensures (i + 1) * d == i * d + d
  {
  }

  /** The quotient is the frame an index falls in. */
  lemma FrameOf(i: nat, d: nat, f: nat)
    requires d > 0
    ensures i / d == f <==> f * d <= i < f * d + d
  {
    var q, r := i / d, i % d;
    assert i == q * d + r;
    if f * d <= i < f * d + d {
      QuotientIsUnique(d, q, r, f, i - f * d);
    }
  }

  lemma QuotientStep(n: nat, d: nat)
    requires n >= d > 0
    ensures (n - d) / d + 1 == n / d
  {
    var q, r := (n - d) / d, (n - d) % d;
    assert q * d + d == (q + 1) * d;
    QuotientIsUnique(d, n / d, n % d, q + 1, r);
  }
}
