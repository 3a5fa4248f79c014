/**
 What the curve promises: the payout is the largest that keeps the
 fee-adjusted product, no sequence of swaps extracts value, and mint and burn
 never dilute the remaining shares.
 */
module CurveTheorems {
  import opened Basics
  import opened Arith
  import opened Curve

  predicate InCap(r: int) {
    1 <= r <= MAX_RESERVE
  }

  // ---------------------------------------------------------------- swaps

  /** The fee-adjusted constant-product rule: only `1000 - fee` parts in 1000
      of the input count, and the product must not fall. */
  predicate KeepsAdjustedK(a: int, b: int, x: int, fee: int, y: int) {
    (1000 * a + (1000 - fee) * x) * (b - y) >= 1000 * (a * b)
  }

  /** `AmountOut` pays exactly the largest amount the adjusted rule allows, and
      refuses exactly when that amount is zero. */
  lemma PayoutIsLargest(a: u64, b: u64, x: u64, fee: u16)
    requires InCap(a) && InCap(b) && InCap(x) && fee < 1000
    ensures forall y: int :: AmountOut(a, b, x, fee) == Ok(y) <==>
              y >= 1 && KeepsAdjustedK(a, b, x, fee, y) && !KeepsAdjustedK(a, b, x, fee, y + 1)
    ensures AmountOut(a, b, x, fee) == Err(OutputRoundsToZero) <==> !KeepsAdjustedK(a, b, x, fee, 1)
    ensures AmountOut(a, b, x, fee).Ok? || AmountOut(a, b, x, fee) == Err(OutputRoundsToZero)
    ensures AmountOut(a, b, x, fee).Ok? ==> 1 <= AmountOut(a, b, x, fee).value < b
  {
    var g := x * (1000 - fee);
    var n, d := g * b, a * 1000 + g;
    MulMono(1, x, 1000 - fee);
    DivFloor(n, d);
    assert n / d < b by {
      assert b * d == n + b * (a * 1000);
      MulMonoStrict(0, a * 1000, b);
      assert b * (a * 1000) == (a * 1000) * b;
      DivBelow(n, d, b);
    }
    AdjustedKIsQuotient(a, b, x, fee, 1);
    DivAtOne(n, d);
    forall y: int
      ensures AmountOut(a, b, x, fee) == Ok(y) <==>
              y >= 1 && KeepsAdjustedK(a, b, x, fee, y) && !KeepsAdjustedK(a, b, x, fee, y + 1)
    {
      AdjustedKIsQuotient(a, b, x, fee, y);
      AdjustedKIsQuotient(a, b, x, fee, y + 1);
      QuotientIsUnique(n, d, y);
    }
  }

  /** The exact condition of each refusal; the rest of the errors never occur. */
  lemma AmountOutVerdict(a: u64, b: u64, x: u64, fee: u16)
    ensures var r := AmountOut(a, b, x, fee);
            var over := x > MAX_RESERVE || a > MAX_RESERVE || b > MAX_RESERVE;
            (r == Err(ZeroAmount) <==> x == 0) &&
            (r == Err(ZeroReserve) <==> x > 0 && (a == 0 || b == 0)) &&
            (r == Err(ReserveCapExceeded) <==> x > 0 && a > 0 && b > 0 && over) &&
            (r == Err(InvalidFee) <==> InCap(a) && InCap(b) && InCap(x) && fee >= 1000) &&
            (r.Ok? || r == Err(OutputRoundsToZero) <==> InCap(a) && InCap(b) && InCap(x) && fee < 1000)
  {
    if InCap(a) && InCap(b) && InCap(x) && fee < 1000 {
      PayoutIsLargest(a, b, x, fee);
      hide AmountOut;
    }
  }

  /** The settlement backstop accepts exactly what a fee-free trade may pay. */
  lemma BackstopIsFeeless(a: u64, b: u64, x: u64, y: u64)
    requires a + x <= U64_MAX && y <= b
    ensures KNonDecreasing(a, b, a + x, b - y) <==> KeepsAdjustedK(a, b, x, 0, y)
  {
    assert (1000 * a + 1000 * x) * (b - y) == 1000 * ((a + x) * (b - y));
  }

  lemma AdjustedKIsQuotient(a: int, b: int, x: int, fee: int, y: int)
    ensures KeepsAdjustedK(a, b, x, fee, y) <==>
            y * (a * 1000 + x * (1000 - fee)) <= x * (1000 - fee) * b
  {
    var g := x * (1000 - fee);
    assert (1000 - fee) * x == g;
    var d := 1000 * a + g;
    assert d * (b - y) == d * b - d * y;
    assert d * b == 1000 * a * b + g * b;
    assert d * y == y * (a * 1000 + g);
    assert 1000 * a * b == 1000 * (a * b);
  }

  lemma DivAtOne(n: int, d: int)
    requires 0 <= n && 0 < d
    ensures n / d == 0 <==> n < d
  {
    DivFloor(n, d);
    if n < d { DivBelow(n, d, 1); } else { DivAtLeast(n, d, 1); }
  }

  lemma QuotientIsUnique(n: int, d: int, y: int)
    requires 0 <= n && 0 < d
    ensures n / d == y <==> y * d <= n < (y + 1) * d
  {
    DivFloor(n, d);
    if y * d <= n < (y + 1) * d {
      DivAtLeast(n, d, y);
      DivBelow(n, d, y + 1);
    }
  }

  /** A settled swap never lowers the reserve product, and raises it strictly
      when any fee is charged. */
  lemma SwapKeepsK(a: u64, b: u64, x: u64, fee: u16)
    requires AmountOut(a, b, x, fee).Ok?
    ensures InCap(a) && InCap(b) && InCap(x) && fee < 1000
    ensures var y := AmountOut(a, b, x, fee).value;
            1 <= y < b &&
            (a + x) * (b - y) >= a * b &&
            (fee > 0 ==> (a + x) * (b - y) > a * b)
  {
    PayoutIsLargest(a, b, x, fee);
    var y := AmountOut(a, b, x, fee).value;
    assert KeepsAdjustedK(a, b, x, fee, y);
    var full := 1000 * (a + x);
    var counted := 1000 * a + (1000 - fee) * x;
    assert counted == full - fee * x;
    MulBoth(0, fee, 0, x);
    MulMono(counted, full, b - y);
    assert full * (b - y) == 1000 * ((a + x) * (b - y));
    if fee > 0 {
      MulMono(1, fee, x);
      MulMonoStrict(counted, full, b - y);
    }
  }

  /** Whatever the adjusted rule allows, the payout is at least that. */
  lemma PayoutAtLeast(a: u64, b: u64, x: u64, fee: u16, y: int)
    requires InCap(a) && InCap(b) && InCap(x) && fee < 1000
    requires y >= 1 && KeepsAdjustedK(a, b, x, fee, y)
    ensures AmountOut(a, b, x, fee).Ok? && AmountOut(a, b, x, fee).value >= y
  {
    hide AmountOut, KeepsAdjustedK;
    PayoutIsLargest(a, b, x, fee);
    AdjustedKShrinks(a, b, x, fee, 1, y);
    var y' := AmountOut(a, b, x, fee).value;
    if y' < y { AdjustedKShrinks(a, b, x, fee, y' + 1, y); }
  }

  /** A settled payout is one the adjusted rule allows. */
  lemma PayoutIsAllowed(a: u64, b: u64, x: u64, fee: u16, y: u64)
    requires AmountOut(a, b, x, fee) == Ok(y)
    ensures InCap(a) && InCap(b) && InCap(x) && fee < 1000 && 1 <= y < b
    ensures KeepsAdjustedK(a, b, x, fee, y)
  {
    PayoutIsLargest(a, b, x, fee);
  }

  /** A larger input never buys less, so "rounds to zero" is a prefix. */
  lemma PayoutIsMonotone(a: u64, b: u64, x: u64, x': u64, fee: u16, y: u64)
    requires AmountOut(a, b, x, fee) == Ok(y) && x <= x' <= MAX_RESERVE
    ensures AmountOut(a, b, x', fee).Ok? && AmountOut(a, b, x', fee).value >= y
  {
    hide AmountOut, KeepsAdjustedK;
    PayoutIsAllowed(a, b, x, fee, y);
    AdjustedKGrows(a, b, x, x', fee, y);
    PayoutAtLeast(a, b, x', fee, y);
  }

  lemma AdjustedKGrows(a: int, b: int, x: int, x': int, fee: int, y: int)
    requires x <= x' && fee <= 1000 && y <= b && KeepsAdjustedK(a, b, x, fee, y)
    ensures KeepsAdjustedK(a, b, x', fee, y)
  {
    MulMono(x, x', 1000 - fee);
    assert (1000 - fee) * x == x * (1000 - fee) && (1000 - fee) * x' == x' * (1000 - fee);
    MulMono(1000 * a + (1000 - fee) * x, 1000 * a + (1000 - fee) * x', b - y);
  }

  lemma AdjustedKShrinks(a: int, b: int, x: int, fee: int, y: int, y': int)
    requires y <= y' && 0 <= a && 0 <= x && fee <= 1000 && KeepsAdjustedK(a, b, x, fee, y')
    ensures KeepsAdjustedK(a, b, x, fee, y)
  {
    var d := 1000 * a + (1000 - fee) * x;
    MulBoth(0, 1000 - fee, 0, x);
    MulMono(b - y', b - y, d);
    assert d * (b - y) == (b - y) * d && d * (b - y') == (b - y') * d;
  }

  /** Splitting a trade in two at one fee never pays more than the single
      trade, floors included. The single trade is refused only for its size. */
  lemma SplitNeverPaysMore(a: u64, b: u64, x1: u64, x2: u64, fee: u16, y1: u64, y2: u64)
    requires AmountOut(a, b, x1, fee) == Ok(y1)
    requires a + x1 <= MAX_RESERVE && AmountOut(a + x1, b - y1, x2, fee) == Ok(y2)
    ensures x1 + x2 <= MAX_RESERVE ==>
              AmountOut(a, b, x1 + x2, fee).Ok? && y1 + y2 <= AmountOut(a, b, x1 + x2, fee).value
    ensures x1 + x2 > MAX_RESERVE ==> AmountOut(a, b, x1 + x2, fee) == Err(ReserveCapExceeded)
  {
    if x1 + x2 <= MAX_RESERVE {
      hide AmountOut;
      SplitFits(a, b, x1, x2, fee, y1, y2);
    }
  }

  lemma SplitFits(a: u64, b: u64, x1: u64, x2: u64, fee: u16, y1: u64, y2: u64)
    requires AmountOut(a, b, x1, fee) == Ok(y1)
    requires a + x1 <= MAX_RESERVE && AmountOut(a + x1, b - y1, x2, fee) == Ok(y2)
    requires x1 + x2 <= MAX_RESERVE
    ensures AmountOut(a, b, x1 + x2, fee).Ok? && y1 + y2 <= AmountOut(a, b, x1 + x2, fee).value
  {
    hide AmountOut, KeepsAdjustedK;
    PayoutIsAllowed(a, b, x1, fee, y1);
    PayoutIsAllowed(a + x1, b - y1, x2, fee, y2);
    ChainedAdjustedK(a, b, x1, x2, fee, y1, y2);
    PayoutAtLeast(a, b, x1 + x2, fee, y1 + y2);
  }

  /** Two payouts that each keep the adjusted product keep it together. */
  lemma ChainedAdjustedK(a: int, b: int, x1: int, x2: int, fee: int, y1: int, y2: int)
    requires 1 <= a && 1 <= x1 && 1 <= x2 && 0 <= fee < 1000
    requires 0 <= y1 && 0 <= y2 && y1 + y2 <= b
    requires KeepsAdjustedK(a, b, x1, fee, y1)
    requires KeepsAdjustedK(a + x1, b - y1, x2, fee, y2)
    ensures KeepsAdjustedK(a, b, x1 + x2, fee, y1 + y2)
  {
    hide KeepsAdjustedK;
    var A, X, u, v := 1000 * a, 1000 * x1, (1000 - fee) * x1, (1000 - fee) * x2;
    AdjustedKScaled(a, b, x1, fee, y1);
    AdjustedKScaled(a + x1, b - y1, x2, fee, y2);
    AdjustedKScaled(a, b, x1 + x2, fee, y1 + y2);
    FeeIsPart(x1, fee);
    FeeIsPart(x2, fee);
    assert (1000 - fee) * (x1 + x2) == u + v;
    ChainCore(A + X, A + u, v, A * b, b - y1, b - y1 - y2);
  }

  lemma AdjustedKScaled(a: int, b: int, x: int, fee: int, y: int)
    ensures KeepsAdjustedK(a, b, x, fee, y) <==> (1000 * a + (1000 - fee) * x) * (b - y) >= (1000 * a) * b
  {
    assert 1000 * (a * b) == (1000 * a) * b;
  }

  lemma FeeIsPart(x: int, fee: int)
    requires 1 <= x && 0 <= fee < 1000
    ensures 0 <= (1000 - fee) * x <= 1000 * x
  {
    MulBoth(0, 1000 - fee, 0, x);
    MulMono(1000 - fee, 1000, x);
  }

  lemma ChainCore(p: int, q: int, v: int, k: int, b1: int, r: int)
    requires 0 < p && 0 <= q <= p && 0 <= v && 0 <= r
    requires q * b1 >= k
    requires (p + v) * r >= p * b1
    ensures (q + v) * r >= k
  {
    assert p * (q + v) - q * (p + v) == v * (p - q);
    MulBoth(0, v, 0, p - q);
    MulMono(q * (p + v), p * (q + v), r);
    Regroup(p, q + v, r);
    Regroup(q, p + v, r);
    MulMono(p * b1, (p + v) * r, q);
    Regroup(q, p, b1);
    Regroup(p, q, b1);
    assert q * p == p * q;
    MulMono(k, q * b1, p);
    MulCancel(k, (q + v) * r, p);
  }

  lemma Regroup(x: int, y: int, z: int)
    ensures x * y * z == (y * z) * x
  {
  }

  /** Swapping the proceeds straight back never returns more than was put in,
      and strictly less when either leg charges a fee. */
  lemma RoundTripLoses(a: u64, b: u64, x: u64, fee1: u16, fee2: u16, y: u64, back: u64)
    requires AmountOut(a, b, x, fee1) == Ok(y)
    requires a + x <= MAX_RESERVE && AmountOut(b - y, a + x, y, fee2) == Ok(back)
    ensures back <= x && (fee1 > 0 || fee2 > 0 ==> back < x)
  {
    hide AmountOut;
    SwapKeepsK(a, b, x, fee1);
    SwapKeepsK(b - y, a + x, y, fee2);
    assert (b - y) * (a + x) == (a + x) * (b - y);
    assert (b - y + y) * (a + x - back) == (a + x - back) * b;
    MulCancel(a, a + x - back, b);
    if fee1 > 0 || fee2 > 0 { MulCancelStrict(a, a + x - back, b); }
  }

  /** One swap of a run, in either direction and at its own fee. */
  datatype Swap = Swap(loIn: bool, amount: u64, fee: u16)

  datatype Reserves = Reserves(lo: int, hi: int)

  /** The reserves a swap leaves; a refused swap leaves them as they were. */
  function AfterSwap(r: Reserves, s: Swap): (r': Reserves)
    requires InCap(r.lo) && InCap(r.hi)
    ensures InCap(r'.lo) && InCap(r'.hi)
  {
    if s.loIn then
      match AmountOut(r.lo, r.hi, s.amount, s.fee)
      case Ok(y) =>
        SwapKeepsK(r.lo, r.hi, s.amount, s.fee);
        if r.lo + s.amount <= MAX_RESERVE then Reserves(r.lo + s.amount, r.hi - y) else r
      case Err(_) => r
    else
      match AmountOut(r.hi, r.lo, s.amount, s.fee)
      case Ok(y) =>
        SwapKeepsK(r.hi, r.lo, s.amount, s.fee);
        if r.hi + s.amount <= MAX_RESERVE then Reserves(r.lo - y, r.hi + s.amount) else r
      case Err(_) => r
  }

  function AfterSwaps(r: Reserves, swaps: seq<Swap>): (r': Reserves)
    requires InCap(r.lo) && InCap(r.hi)
    ensures InCap(r'.lo) && InCap(r'.hi)
    decreases |swaps|
  {
    hide AfterSwap;
    if swaps == [] then r else AfterSwaps(AfterSwap(r, swaps[0]), swaps[1..])
  }

  lemma {:induction false} SwapsKeepK(r: Reserves, swaps: seq<Swap>)
    requires InCap(r.lo) && InCap(r.hi)
    ensures var e := AfterSwaps(r, swaps); e.lo * e.hi >= r.lo * r.hi
    decreases |swaps|
  {
    if swaps != [] {
      var s := swaps[0];
      if s.loIn {
        if AmountOut(r.lo, r.hi, s.amount, s.fee).Ok? { SwapKeepsK(r.lo, r.hi, s.amount, s.fee); }
      } else if AmountOut(r.hi, r.lo, s.amount, s.fee).Ok? {
        SwapKeepsK(r.hi, r.lo, s.amount, s.fee);
        var y := AmountOut(r.hi, r.lo, s.amount, s.fee).value;
        assert (r.hi + s.amount) * (r.lo - y) == (r.lo - y) * (r.hi + s.amount);
        assert r.hi * r.lo == r.lo * r.hi;
      }
      SwapsKeepK(AfterSwap(r, s), swaps[1..]);
    }
  }

  /** No sequence of swaps, in any directions and at any fees, takes from both
      sides: reserves that end at or below their start ended where they began. */
  lemma NoSwapSequenceExtracts(r: Reserves, swaps: seq<Swap>)
    requires InCap(r.lo) && InCap(r.hi)
    requires AfterSwaps(r, swaps).lo <= r.lo && AfterSwaps(r, swaps).hi <= r.hi
    ensures AfterSwaps(r, swaps) == r
  {
    hide AfterSwaps;
    SwapsKeepK(r, swaps);
    ProductPinsBoth(AfterSwaps(r, swaps).lo, AfterSwaps(r, swaps).hi, r.lo, r.hi);
  }

  lemma ProductPinsBoth(a: int, b: int, a': int, b': int)
    requires 0 < a <= a' && 0 < b <= b' && a * b >= a' * b'
    ensures a == a' && b == b'
  {
    MulMono(b, b', a');
    if a < a' { MulMonoStrict(a, a', b); }
    if b < b' { MulMonoStrict(b, b', a'); MulMono(a, a', b); }
  }

  // ------------------------------------------------------- mint and burn

  /** Reserve product per squared share did not fall from (k, s) to (k', s'). */
  predicate PerShareNotDiluted(k: int, s: int, k': int, s': int) {
    k' * (s * s) >= k * (s' * s')
  }

  lemma PerShareTransitive(k0: int, s0: int, k1: int, s1: int, k2: int, s2: int)
    requires 0 < s1 && 0 <= s0 && 0 <= s2
    requires PerShareNotDiluted(k0, s0, k1, s1) && PerShareNotDiluted(k1, s1, k2, s2)
    ensures PerShareNotDiluted(k0, s0, k2, s2)
  {
    var q0, q1, q2 := s0 * s0, s1 * s1, s2 * s2;
    MulBoth(0, s0, 0, s0);
    MulBoth(0, s2, 0, s2);
    MulMonoStrict(0, s1, s1);
    MulMono(k1 * q2, k2 * q1, q0);
    MulMono(k0 * q1, k1 * q0, q2);
    assert (k2 * q1) * q0 == (k2 * q0) * q1;
    assert (k1 * q2) * q0 == (k1 * q0) * q2;
    assert (k0 * q1) * q2 == (k0 * q2) * q1;
    MulCancel(k0 * q2, k2 * q0, q1);
  }

  /** Per side: if no reserve falls per share, the product does not per share squared. */
  lemma PerShareFromSides(a: int, b: int, s: int, a': int, b': int, s': int)
    requires 0 <= a && 0 <= b && 0 <= s && 0 <= s' && 0 <= b' && 0 <= a'
    requires a' * s >= a * s' && b' * s >= b * s'
    ensures PerShareNotDiluted(a * b, s, a' * b', s')
  {
    MulBoth(0, a, 0, s');
    MulBoth(0, b, 0, s');
    MulBoth(a * s', a' * s, b * s', b' * s);
    assert (a * s') * (b * s') == (a * b) * (s' * s');
    assert (a' * s) * (b' * s) == (a' * b') * (s * s);
  }

  /** A later deposit mints the largest share count justified by both sides. */
  lemma MintIsLargestFair(a: u64, b: u64, s: u64, da: u64, db: u64)
    requires InCap(a) && InCap(b) && s > 0 && MintShares(a, b, s, da, db).Ok?
    ensures var m := MintShares(a, b, s, da, db).value;
            m.newTotalShares == s + m.toOwner && m.toOwner >= 1 &&
            m.toOwner * a <= da * s && m.toOwner * b <= db * s &&
            ((m.toOwner + 1) * a > da * s || (m.toOwner + 1) * b > db * s)
  {
    DivFloor(da * s, a);
    DivFloor(db * s, b);
    var m := MintShares(a, b, s, da, db).value.toOwner;
    MulMono(m, (da * s) / a, a);
    MulMono(m, (db * s) / b, b);
  }

  /** The exact condition of each refusal of a mint, but for overflow. */
  lemma MintVerdict(a: u64, b: u64, s: u64, da: u64, db: u64)
    ensures var r := MintShares(a, b, s, da, db);
            var sized := da > 0 && db > 0 && a + da <= MAX_RESERVE && b + db <= MAX_RESERVE;
            (r == Err(ZeroAmount) <==> da == 0 || db == 0) &&
            (r == Err(ReserveCapExceeded) <==> da > 0 && db > 0 && !sized) &&
            (r == Err(InsufficientInitialLiquidity) <==> sized && s == 0 && da * db < (MINIMUM_LIQUIDITY + 1) * (MINIMUM_LIQUIDITY + 1)) &&
            (r == Err(ZeroReserve) <==> sized && s > 0 && (a == 0 || b == 0)) &&
            (r == Err(OutputRoundsToZero) <==> sized && s > 0 && a > 0 && b > 0 && (da * s < a || db * s < b))
  {
    if da > 0 && db > 0 && a + da <= MAX_RESERVE && b + db <= MAX_RESERVE {
      if s == 0 {
        FirstMintRoot(da, db);
      } else if a > 0 && b > 0 {
        MulBoth(0, da, 0, s);
        MulBoth(0, db, 0, s);
        DivAtOne(da * s, a);
        DivAtOne(db * s, b);
        DivFloor(da * s, a);
        DivFloor(db * s, b);
      }
    }
  }

  lemma RootBelow(n: int, r: int, q: int)
    requires 0 <= r && 0 <= q && r * r <= n < (r + 1) * (r + 1)
    ensures r <= q <==> n < (q + 1) * (q + 1)
  {
    if r <= q { SquareMono(r + 1, q + 1); } else { SquareMono(q + 1, r); }
  }

  lemma FirstMintRoot(da: u64, db: u64)
    requires da <= MAX_RESERVE && db <= MAX_RESERVE
    ensures ISqrt(da * db) <= MAX_RESERVE
    ensures ISqrt(da * db) <= MINIMUM_LIQUIDITY <==> da * db < (MINIMUM_LIQUIDITY + 1) * (MINIMUM_LIQUIDITY + 1)
  {
    hide ISqrt;
    MulBoth(da, MAX_RESERVE, db, MAX_RESERVE);
    RootBelow(da * db, ISqrt(da * db), MAX_RESERVE);
    RootBelow(da * db, ISqrt(da * db), MINIMUM_LIQUIDITY);
  }

  lemma MintKeepsShareValue(a: u64, b: u64, s: u64, da: u64, db: u64)
    requires InCap(a) && InCap(b) && s > 0 && MintShares(a, b, s, da, db).Ok?
    ensures var s' := MintShares(a, b, s, da, db).value.newTotalShares;
            PerShareNotDiluted(a * b, s, (a + da) * (b + db), s')
  {
    hide MintShares;
    MintIsLargestFair(a, b, s, da, db);
    var s' := MintShares(a, b, s, da, db).value.newTotalShares;
    var m := s' - s;
    assert (a + da) * s == a * s + da * s && a * s' == a * s + m * a;
    assert (b + db) * s == b * s + db * s && b * s' == b * s + m * b;
    PerShareFromSides(a, b, s, a + da, b + db, s');
  }

  /** Creating a pool mints at most the geometric mean of the deposit. */
  lemma FirstMintIsCovered(da: u64, db: u64)
    requires MintShares(0, 0, 0, da, db).Ok?
    ensures var m := MintShares(0, 0, 0, da, db).value;
            m.newTotalShares == m.toOwner + MINIMUM_LIQUIDITY && m.toOwner >= 1 &&
            InCap(da) && InCap(db) &&
            m.newTotalShares * m.newTotalShares <= da * db < (m.newTotalShares + 1) * (m.newTotalShares + 1)
  {
  }

  /** A burn pays each side its floored pro-rata part, never more. */
  lemma BurnIsFloored(a: u64, b: u64, s: u64, n: u64)
    requires BurnShares(a, b, s, n).Ok?
    ensures 1 <= n <= s
    ensures var o := BurnShares(a, b, s, n).value;
            o.newTotalShares == s - n && o.da <= a && o.db <= b &&
            o.da * s <= a * n < (o.da + 1) * s && o.db * s <= b * n < (o.db + 1) * s
  {
    var o := BurnShares(a, b, s, n).value;
    DivFloor(a * n, s);
    DivFloor(b * n, s);
    MulMono(n, s, a);
    MulMono(n, s, b);
    assert a * n <= a * s && b * n <= b * s;
    MulCancel(o.da, a, s);
    MulCancel(o.db, b, s);
  }

  /** The exact condition of each refusal of a burn; it never overflows. */
  lemma BurnVerdict(a: u64, b: u64, s: u64, n: u64)
    ensures var r := BurnShares(a, b, s, n);
            (r == Err(ZeroAmount) <==> n == 0) &&
            (r == Err(InsufficientShares) <==> n > s) &&
            (r == Err(OutputRoundsToZero) <==> 1 <= n <= s && a * n < s && b * n < s) &&
            (r.Ok? <==> 1 <= n <= s && (a * n >= s || b * n >= s))
  {
    if 1 <= n <= s {
      MulBoth(0, a, 0, n);
      MulBoth(0, b, 0, n);
      DivAtOne(a * n, s);
      DivAtOne(b * n, s);
      MulBoth(n, s, a, a);
      MulBoth(n, s, b, b);
      DivAtMost(a * n, s, a);
      DivAtMost(b * n, s, b);
      DivFloor(a * n, s);
      DivFloor(b * n, s);
    }
  }

  lemma BurnKeepsShareValue(a: u64, b: u64, s: u64, n: u64)
    requires BurnShares(a, b, s, n).Ok?
    ensures var o := BurnShares(a, b, s, n).value;
            o.da <= a && o.db <= b &&
            PerShareNotDiluted(a * b, s, (a - o.da) * (b - o.db), s - n)
  {
    BurnIsFloored(a, b, s, n);
    var o := BurnShares(a, b, s, n).value;
    assert (a - o.da) * s == a * s - o.da * s && a * (s - n) == a * s - a * n;
    assert (b - o.db) * s == b * s - o.db * s && b * (s - n) == b * s - b * n;
    PerShareFromSides(a, b, s, a - o.da, b - o.db, s - n);
  }

  /** Depositing and withdrawing the minted shares at once never profits, on an
      existing pool and on the one the deposit creates. */
  lemma DepositWithdrawNeverProfits(a: u64, b: u64, s: u64, da: u64, db: u64)
    requires MintShares(a, b, s, da, db).Ok?
    requires s == 0 ==> a == 0 && b == 0
    requires var m := MintShares(a, b, s, da, db).value;
             a + da <= MAX_RESERVE && b + db <= MAX_RESERVE && BurnShares(a + da, b + db, m.newTotalShares, m.toOwner).Ok?
    ensures var m := MintShares(a, b, s, da, db).value;
            var o := BurnShares(a + da, b + db, m.newTotalShares, m.toOwner).value;
            o.da <= da && o.db <= db
  {
    var m := MintShares(a, b, s, da, db).value;
    BurnIsFloored(a + da, b + db, m.newTotalShares, m.toOwner);
    if s > 0 {
      MintIsLargestFair(a, b, s, da, db);
      ProRataBack(a, s, da, m.toOwner, BurnShares(a + da, b + db, m.newTotalShares, m.toOwner).value.da);
      ProRataBack(b, s, db, m.toOwner, BurnShares(a + da, b + db, m.newTotalShares, m.toOwner).value.db);
    }
  }

  lemma ProRataBack(a: int, s: int, da: int, m: int, back: int)
    requires 0 <= m && 0 < s && m * a <= da * s
    requires back * (s + m) <= (a + da) * m
    ensures back <= da
  {
    assert (a + da) * m == m * a + da * m;
    assert da * (s + m) == da * s + da * m;
    MulCancel(back, da, s + m);
  }
}
