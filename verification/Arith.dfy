/**
 Small facts of nonlinear integer arithmetic, each stated for named arguments
 so that the proofs about the curve can be written as short chains of calls.
 */
module Arith {

  lemma MulMono(a: int, b: int, c: int)
    requires a <= b && 0 <= c
    ensures a * c <= b * c
  {
  }

  lemma MulMonoStrict(a: int, b: int, c: int)
    requires a < b && 0 < c
    ensures a * c < b * c
  {
  }

  lemma MulBoth(a: int, b: int, c: int, d: int)
    requires 0 <= a <= b && 0 <= c <= d
    ensures 0 <= a * c <= b * d
  {
    MulMono(a, b, c);
    MulMono(c, d, b);
  }

  /** A common positive factor cancels from an inequality. */
  lemma MulCancel(a: int, b: int, c: int)
    requires a * c <= b * c && 0 < c
    ensures a <= b
  {
    if b < a { MulMonoStrict(b, a, c); }
  }

  lemma MulCancelStrict(a: int, b: int, c: int)
    requires a * c < b * c && 0 < c
    ensures a < b
  {
    if b <= a { MulMono(b, a, c); }
  }

  /** Floor division is the largest quotient whose product stays below. */
  lemma DivFloor(n: int, d: int)
    requires 0 <= n && 0 < d
    ensures 0 <= n / d <= n
    ensures (n / d) * d <= n < (n / d + 1) * d
  {
    assert n == d * (n / d) + n % d;
    assert (n / d) * d == d * (n / d);
    assert (n / d + 1) * d == d * (n / d) + d;
    assert n / d >= 0;
    MulMono(1, d, n / d);
  }

  lemma DivAtLeast(n: int, d: int, q: int)
    requires 0 <= n && 0 < d && q * d <= n
    ensures q <= n / d
  {
    DivFloor(n, d);
    MulCancelStrict(q, n / d + 1, d);
  }

  lemma DivBelow(n: int, d: int, q: int)
    requires 0 <= n && 0 < d && n < q * d
    ensures n / d < q
  {
    DivFloor(n, d);
    MulCancelStrict(n / d, q, d);
  }

  lemma DivAtMost(n: int, d: int, q: int)
    requires 0 <= n && 0 < d && n <= q * d
    ensures n / d <= q
  {
    DivFloor(n, d);
    MulCancel(n / d, q, d);
  }

  /** A larger numerator over a smaller denominator has a larger floor. */
  lemma DivMono(n: int, d: int, n': int, d': int)
    requires 0 <= n <= n' && 0 < d' <= d
    ensures n / d <= n' / d'
  {
    DivFloor(n, d);
    MulMono(d', d, n / d);
    assert (n / d) * d' == d' * (n / d) && (n / d) * d == d * (n / d);
    DivAtLeast(n', d', n / d);
  }

  lemma SquareMono(a: int, b: int)
    requires 0 <= a && 0 <= b
    ensures a <= b <==> a * a <= b * b
  {
    if a <= b { MulBoth(a, b, a, b); }
    else {
      MulMono(b, a, b);
      MulMonoStrict(b, a, a);
      assert a * b == b * a;
    }
  }
}
