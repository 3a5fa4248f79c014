/**
 The price keeper's policy: how far the pool's price is from the oracle, the
 largest correction that does not pass it, and the clamps on that size.
 */
module Keeper {
  import opened Basics
  import opened Arith
  import opened Curve
  import opened CurveTheorems

  const DECIMAL_GAP: u128 := 100_000_000_000
  const BPS: int := 10_000

  /** The oracle refuses any price above this many micro-USD per BTC. */
  const MAX_MICRO_USD_PER_BTC: u128 := 1_000_000_000_000_000_000

  datatype PoolState = PoolState(unitLo: u64, unitHi: u64, reserveLo: u64, reserveHi: u64, fee: u16)
  datatype MinSwapIn = MinSwapIn(lo: u64, hi: u64)
  datatype Balances = Balances(lo: u64, hi: u64)
  datatype KeeperConfig = KeeperConfig(bandBps: u64, maxTradeMicroUsd: u128, btcFloor: u64, usdtFloor: u64)
  datatype Side = SellBtc | BuyBtc

  datatype HoldReason =
    | EmptyPool
    | OneSidedPool
    | Unpriceable
    | BandBelowFee
    | InBand(devBps: int)
    | NoSizeAvailable(devBps: int)
    | BelowMinSwapIn(amount: u64)
    | RoundsToZero(amount: u64)

  datatype Decision = Hold(reason: HoldReason) | Trade(unitIn: u64, unitOut: u64, amountIn: u64)

  function CheckedMul(a: u128, b: u128): Option<u128> {
    if a * b <= U128_MAX then MulBoth(0, a, 0, b); Some(a * b) else None
  }

  /** `i128` division, truncating toward zero. */
  function TruncDiv(a: int, d: int): int
    requires d > 0
  {
    if a >= 0 then a / d else -((-a) / d)
  }

  function SaturatingMulI128(a: int, b: int): int {
    if a * b > I128_MAX then I128_MAX else if a * b < I128_MIN then I128_MIN else a * b
  }

  function DevBps(reserveLo: u64, reserveHi: u64, oracle: u128): Option<int> {
    match CheckedMul(reserveLo, oracle)
    case None => None
    case Some(oracleSide) =>
      if oracleSide == 0 then None
      else match CheckedMul(reserveHi, DECIMAL_GAP)
      case None => None
      case Some(poolSide) =>
        if poolSide > I128_MAX || oracleSide > I128_MAX then None
        else Some(TruncDiv(SaturatingMulI128(poolSide - oracleSide, BPS), oracleSide))
  }

  function ReserveIn(side: Side, pool: PoolState): u64 {
    if side == SellBtc then pool.reserveLo else pool.reserveHi
  }

  function ReserveOut(side: Side, pool: PoolState): u64 {
    if side == SellBtc then pool.reserveHi else pool.reserveLo
  }

  /** Whether swapping `dx` carries the price past the oracle. Too small to pay
      anything is not crossing; not executable for any other reason is. */
  predicate CrossesTarget(side: Side, pool: PoolState, dx: u64, oracle: u128) {
    match AmountOut(ReserveIn(side, pool), ReserveOut(side, pool), dx, pool.fee)
    case Err(e) => e != ZeroAmount && e != OutputRoundsToZero
    case Ok(y) =>
      if ReserveIn(side, pool) + dx > U64_MAX || ReserveOut(side, pool) < y then true
      else
        var lo: u64 := if side == SellBtc then pool.reserveLo + dx else pool.reserveLo - y;
        var hi: u64 := if side == SellBtc then pool.reserveHi - y else pool.reserveHi + dx;
        match (CheckedMul(hi, DECIMAL_GAP), CheckedMul(lo, oracle))
        case (Some(poolSide), Some(oracleSide)) =>
          if side == SellBtc then poolSide < oracleSide else poolSide > oracleSide
        case _ => true
  }

  function MaxTradeCap(side: Side, maxMicroUsd: u128, oracle: u128): u64 {
    if side == BuyBtc then Min(maxMicroUsd, U64_MAX)
    else if oracle == 0 then 0
    else
      MulBoth(0, maxMicroUsd, 0, DECIMAL_GAP);
      DivFloor(Min(maxMicroUsd * DECIMAL_GAP, U128_MAX), oracle);
      Min(Min(maxMicroUsd * DECIMAL_GAP, U128_MAX) / oracle, U64_MAX)
  }

  function ApplyTrade(pool: PoolState, unitIn: u64, amountIn: u64): Option<(u64, u64)> {
    if unitIn != pool.unitLo && unitIn != pool.unitHi then None
    else
      var side := if unitIn == pool.unitLo then SellBtc else BuyBtc;
      match AmountOut(ReserveIn(side, pool), ReserveOut(side, pool), amountIn, pool.fee)
      case Err(_) => None
      case Ok(y) =>
        if ReserveIn(side, pool) + amountIn > U64_MAX then None
        else if side == SellBtc then Some((pool.reserveLo + amountIn, pool.reserveHi - y))
        else Some((pool.reserveLo - y, pool.reserveHi + amountIn))
  }

  // --------------------------------------------------------- monotonicity

  /** The oracle product of what a buy can leave of the reserve it shrinks, at
      most all but one unit of it, does not overflow. */
  predicate PriceFits(side: Side, pool: PoolState, oracle: u128) {
    side == SellBtc || (pool.reserveLo - 1) * oracle <= U128_MAX
  }

  lemma AcceptedPriceFits(side: Side, pool: PoolState, oracle: u128)
    requires oracle <= MAX_MICRO_USD_PER_BTC && pool.reserveLo <= MAX_RESERVE
    ensures PriceFits(side, pool, oracle)
  {
    MulBoth(pool.reserveLo, MAX_RESERVE, oracle, MAX_MICRO_USD_PER_BTC);
    MulMono(pool.reserveLo - 1, pool.reserveLo, oracle);
  }

  /** A price that has a deviation at all fits on either side. */
  lemma PriceableFits(pool: PoolState, oracle: u128)
    requires DevBps(pool.reserveLo, pool.reserveHi, oracle).Some?
    ensures PriceFits(SellBtc, pool, oracle) && PriceFits(BuyBtc, pool, oracle)
  {
    MulMono(pool.reserveLo - 1, pool.reserveLo, oracle);
  }

  /** What a settled size does to the two sides of the price comparison. */
  lemma CrossingAt(side: Side, pool: PoolState, dx: u64, oracle: u128, y: u64)
    requires AmountOut(ReserveIn(side, pool), ReserveOut(side, pool), dx, pool.fee) == Ok(y)
    requires PriceFits(side, pool, oracle)
    ensures y < ReserveOut(side, pool)
    ensures side == SellBtc ==>
              (CrossesTarget(side, pool, dx, oracle) <==> (pool.reserveHi - y) * DECIMAL_GAP < (pool.reserveLo + dx) * oracle)
    ensures side == BuyBtc ==>
              (CrossesTarget(side, pool, dx, oracle) <==> (pool.reserveHi + dx) * DECIMAL_GAP > (pool.reserveLo - y) * oracle)
  {
    PayoutIsAllowed(ReserveIn(side, pool), ReserveOut(side, pool), dx, pool.fee, y);
    hide AmountOut;
    if side == SellBtc {
      MulBoth(pool.reserveHi - y, MAX_RESERVE, DECIMAL_GAP, DECIMAL_GAP);
      MulBoth(0, pool.reserveLo + dx, 0, oracle);
    } else {
      MulBoth(pool.reserveHi + dx, 2 * MAX_RESERVE, DECIMAL_GAP, DECIMAL_GAP);
      MulBoth(pool.reserveLo - y, pool.reserveLo - 1, oracle, oracle);
    }
  }

  /** Once a size crosses, every larger size does, error classes included. */
  lemma CrossingIsMonotone(side: Side, pool: PoolState, dx: u64, dx': u64, oracle: u128)
    requires PriceFits(side, pool, oracle)
    requires dx <= dx' && CrossesTarget(side, pool, dx, oracle)
    ensures CrossesTarget(side, pool, dx', oracle)
  {
    var a, b := ReserveIn(side, pool), ReserveOut(side, pool);
    if AmountOut(a, b, dx, pool.fee).Err? {
      CrossingErrorsPersist(a, b, dx, dx', pool.fee);
    } else if dx' <= MAX_RESERVE {
      var y := AmountOut(a, b, dx, pool.fee).value;
      PayoutIsMonotone(a, b, dx, dx', pool.fee, y);
      var y' := AmountOut(a, b, dx', pool.fee).value;
      CrossingAt(side, pool, dx, oracle, y);
      CrossingAt(side, pool, dx', oracle, y');
      hide AmountOut, CrossesTarget;
      if side == SellBtc {
        MulMono(pool.reserveHi - y', pool.reserveHi - y, DECIMAL_GAP);
        MulMono(pool.reserveLo + dx, pool.reserveLo + dx', oracle);
      } else {
        MulMono(pool.reserveHi + dx, pool.reserveHi + dx', DECIMAL_GAP);
        MulMono(pool.reserveLo - y', pool.reserveLo - y, oracle);
      }
    } else {
      TooLargeCrosses(a, b, dx, dx', pool.fee);
    }
  }

  predicate CrossingError(r: Result<u64, CurveError>) {
    r.Err? && r.error != ZeroAmount && r.error != OutputRoundsToZero
  }

  lemma CrossingErrorsPersist(a: u64, b: u64, dx: u64, dx': u64, fee: u16)
    requires dx <= dx' && CrossingError(AmountOut(a, b, dx, fee))
    ensures CrossingError(AmountOut(a, b, dx', fee))
  {
    if InCap(a) && InCap(b) && InCap(dx) && fee < 1000 { PayoutIsLargest(a, b, dx, fee); }
  }

  lemma TooLargeCrosses(a: u64, b: u64, dx: u64, dx': u64, fee: u16)
    requires AmountOut(a, b, dx, fee).Ok? && dx' > MAX_RESERVE
    ensures CrossingError(AmountOut(a, b, dx', fee))
  {
  }

  /** At this price the predicate is monotone in the size, for every pool. */
  ghost predicate MonotoneAt(side: Side, oracle: u128) {
    forall pool: PoolState, dx: u64, dx': u64 ::
      dx <= dx' && CrossesTarget(side, pool, dx, oracle) ==> CrossesTarget(side, pool, dx', oracle)
  }

  /** The exact prices: selling always, and buying exactly while the price
      times the largest reserve a buy can leave fits 128 bits. */
  lemma MonotoneIffPriceFits(side: Side, oracle: u128)
    ensures MonotoneAt(side, oracle) <==> side == SellBtc || (MAX_RESERVE - 1) * oracle <= U128_MAX
  {
    hide CrossesTarget, AmountOut;
    if side == BuyBtc && (MAX_RESERVE - 1) * oracle > U128_MAX {
      var left := U128_MAX / oracle;
      HugePriceBreaksMonotonicity(oracle);
      assert CrossesTarget(side, PoolState(0, 1, left + 2, left, 0), 1, oracle);
    } else {
      forall pool: PoolState, dx: u64, dx': u64 | dx <= dx' && CrossesTarget(side, pool, dx, oracle)
        ensures CrossesTarget(side, pool, dx', oracle)
      {
        if pool.reserveLo <= MAX_RESERVE {
          MulMono(pool.reserveLo - 1, MAX_RESERVE - 1, oracle);
          CrossingIsMonotone(side, pool, dx, dx', oracle);
        } else {
          OversizedCrosses(side, pool, dx, dx', oracle);
        }
      }
    }
  }

  lemma OversizedCrosses(side: Side, pool: PoolState, dx: u64, dx': u64, oracle: u128)
    requires pool.reserveLo > MAX_RESERVE && dx <= dx' && CrossesTarget(side, pool, dx, oracle)
    ensures CrossesTarget(side, pool, dx', oracle)
  {
    CrossingErrorsPersist(ReserveIn(side, pool), ReserveOut(side, pool), dx, dx', pool.fee);
  }

  /** Beyond that price the overflow guard of a buy fires on a small size and
      not on the next: a pool for each such price. */
  lemma HugePriceBreaksMonotonicity(oracle: u128)
    requires (MAX_RESERVE - 1) * oracle > U128_MAX
    ensures var left := U128_MAX / oracle;
            1 <= left <= MAX_RESERVE - 2 &&
            var pool := PoolState(0, 1, left + 2, left, 0);
            CrossesTarget(BuyBtc, pool, 1, oracle) && !CrossesTarget(BuyBtc, pool, 2, oracle)
  {
    hide CrossesTarget, AmountOut;
    var left := U128_MAX / oracle;
    DivFloor(U128_MAX, oracle);
    DivAtLeast(U128_MAX, oracle, 1);
    DivBelow(U128_MAX, oracle, MAX_RESERVE - 1);
    SmallBuys(left);
    OverflowCrosses(left, oracle);
    FittingBuy(left, oracle);
  }

  lemma SmallBuys(left: u64)
    requires 1 <= left <= MAX_RESERVE - 2
    ensures AmountOut(left, left + 2, 1, 0) == Ok(1) && AmountOut(left, left + 2, 2, 0) == Ok(2)
  {
    hide AmountOut, KeepsAdjustedK;
    PayoutIsLargest(left, left + 2, 1, 0);
    PayoutIsLargest(left, left + 2, 2, 0);
    AdjustedKIsQuotient(left, left + 2, 1, 0, 1);
    AdjustedKIsQuotient(left, left + 2, 1, 0, 2);
    AdjustedKIsQuotient(left, left + 2, 2, 0, 2);
    AdjustedKIsQuotient(left, left + 2, 2, 0, 3);
  }

  lemma OverflowCrosses(left: u64, oracle: u128)
    requires 1 <= left <= MAX_RESERVE - 2 && (left + 1) * oracle > U128_MAX
    requires AmountOut(left, left + 2, 1, 0) == Ok(1)
    ensures CrossesTarget(BuyBtc, PoolState(0, 1, left + 2, left, 0), 1, oracle)
  {
    hide AmountOut;
  }

  lemma FittingBuy(left: u64, oracle: u128)
    requires 1 <= left <= MAX_RESERVE - 2 && left * oracle <= U128_MAX && (MAX_RESERVE - 1) * oracle > U128_MAX
    requires AmountOut(left, left + 2, 2, 0) == Ok(2)
    ensures !CrossesTarget(BuyBtc, PoolState(0, 1, left + 2, left, 0), 2, oracle)
  {
    hide AmountOut;
    assert oracle >= 3 * DECIMAL_GAP;
    MulMono(3 * DECIMAL_GAP, oracle, left);
    assert oracle * left == left * oracle;
  }

  // ------------------------------------------------------------- the search

  /** The largest size up to `limit` that does not cross, or 0. */
  ghost function BestUpTo(side: Side, pool: PoolState, oracle: u128, limit: u64): (best: u64)
    ensures best <= limit
    ensures best > 0 ==> !CrossesTarget(side, pool, best, oracle)
    ensures forall d: u64 :: best < d <= limit ==> CrossesTarget(side, pool, d, oracle)
  {
    hide CrossesTarget;
    if limit == 0 then 0
    else if !CrossesTarget(side, pool, limit, oracle) then limit
    else BestUpTo(side, pool, oracle, limit - 1)
  }

  function SearchLimit(side: Side, pool: PoolState): u64 {
    SaturatingSub(MAX_RESERVE, ReserveIn(side, pool))
  }

  ghost function BestSize(side: Side, pool: PoolState, oracle: u128): u64 {
    BestUpTo(side, pool, oracle, SearchLimit(side, pool))
  }

  lemma BestIsUnique(side: Side, pool: PoolState, oracle: u128, best: u64)
    requires best <= SearchLimit(side, pool)
    requires best > 0 ==> !CrossesTarget(side, pool, best, oracle)
    requires forall d: u64 :: best < d <= SearchLimit(side, pool) ==> CrossesTarget(side, pool, d, oracle)
    ensures best == BestSize(side, pool, oracle)
  {
    hide CrossesTarget;
    var b := BestSize(side, pool, oracle);
    assert b < best ==> CrossesTarget(side, pool, best, oracle);
  }

  function Pow2(k: nat): nat {
    if k == 0 then 1 else 2 * Pow2(k - 1)
  }

  /** Binary search over the settlement function. For every price that fits the
      answer is the largest non-crossing size, in at most 59 probes. */
  method LargestNonCrossing(side: Side, pool: PoolState, oracle: u128) returns (best: u64, ghost probes: nat)
    ensures best <= SearchLimit(side, pool)
    ensures best > 0 ==> !CrossesTarget(side, pool, best, oracle)
    ensures PriceFits(side, pool, oracle) ==> best == BestSize(side, pool, oracle)
    ensures probes <= 59
  {
    hide CrossesTarget, PriceFits;
    var low: int, high: int := 1, SearchLimit(side, pool);
    best, probes := 0, 0;
    assert Pow2(59) == 2 * MAX_RESERVE by { PowerOf59(); }
    while low <= high
      invariant best == low - 1 && 1 <= low <= high + 1 <= SearchLimit(side, pool) + 1
      invariant best > 0 ==> !CrossesTarget(side, pool, best, oracle)
      invariant PriceFits(side, pool, oracle) ==>
                  forall d: u64 :: high < d <= SearchLimit(side, pool) ==> CrossesTarget(side, pool, d, oracle)
      invariant probes <= 59 && high - low + 1 < Pow2(59 - probes)
      decreases high - low + 1
    {
      var mid := low + (high - low) / 2;
      assert Pow2(59 - probes) >= 2 by { assert high - low + 1 >= 1; }
      if CrossesTarget(side, pool, mid, oracle) {
        if PriceFits(side, pool, oracle) {
          forall d: u64 | mid <= d <= SearchLimit(side, pool) ensures CrossesTarget(side, pool, d, oracle) {
            CrossingIsMonotone(side, pool, mid, d, oracle);
          }
        }
        high := mid - 1;
      } else {
        best := mid;
        low := mid + 1;
      }
      probes := probes + 1;
    }
    if PriceFits(side, pool, oracle) { BestIsUnique(side, pool, oracle, best); }
  }

  lemma PowerOf59()
    ensures Pow2(59) == 2 * MAX_RESERVE
  {
    assert Pow2(10) == 1024;
    PowAdd(10, 10); PowAdd(20, 20); PowAdd(40, 10);
    assert Pow2(9) == 512;
    PowAdd(50, 9);
  }

  lemma {:induction false} PowAdd(a: nat, b: nat)
    ensures Pow2(a + b) == Pow2(a) * Pow2(b)
  {
    if a > 0 { PowAdd(a - 1, b); }
  }

  // ------------------------------------------------------------- decisions

  function SideFor(devBps: int, band: u64): Option<Side> {
    if devBps > band then Some(SellBtc) else if devBps + band < 0 then Some(BuyBtc) else None
  }

  /** The size left after the dollar cap and the inventory floor. */
  function Clamped(side: Side, size: u64, oracle: u128, balances: Balances, cfg: KeeperConfig): u64 {
    var spendable := if side == SellBtc then SaturatingSub(balances.lo, cfg.btcFloor) else SaturatingSub(balances.hi, cfg.usdtFloor);
    Min(Min(size, MaxTradeCap(side, cfg.maxTradeMicroUsd, oracle)), spendable)
  }

  ghost function DecideSpec(pool: PoolState, minSwapIn: MinSwapIn, oracle: u128, balances: Balances, cfg: KeeperConfig): Decision {
    if pool.reserveLo == 0 && pool.reserveHi == 0 then Hold(EmptyPool)
    else if pool.reserveLo == 0 || pool.reserveHi == 0 then Hold(OneSidedPool)
    else if cfg.bandBps < pool.fee * 10 then Hold(BandBelowFee)
    else match DevBps(pool.reserveLo, pool.reserveHi, oracle)
    case None => Hold(Unpriceable)
    case Some(dev) =>
      match SideFor(dev, cfg.bandBps)
      case None => Hold(InBand(dev))
      case Some(side) =>
        var best := BestSize(side, pool, oracle);
        if best == 0 then Hold(NoSizeAvailable(dev))
        else
          var amount := Clamped(side, best, oracle, balances, cfg);
          if amount < (if side == SellBtc then minSwapIn.lo else minSwapIn.hi) then Hold(BelowMinSwapIn(amount))
          else if AmountOut(ReserveIn(side, pool), ReserveOut(side, pool), amount, pool.fee).Err? then Hold(RoundsToZero(amount))
          else if side == SellBtc then Trade(pool.unitLo, pool.unitHi, amount) else Trade(pool.unitHi, pool.unitLo, amount)
  }

  method Decide(pool: PoolState, minSwapIn: MinSwapIn, oracle: u128, balances: Balances, cfg: KeeperConfig) returns (d: Decision)
    ensures d == DecideSpec(pool, minSwapIn, oracle, balances, cfg)
  {
    hide AmountOut, CrossesTarget, MaxTradeCap, BestSize, DevBps, PriceFits;
    if pool.reserveLo == 0 && pool.reserveHi == 0 { return Hold(EmptyPool); }
    if pool.reserveLo == 0 || pool.reserveHi == 0 { return Hold(OneSidedPool); }
    if cfg.bandBps < pool.fee * 10 { return Hold(BandBelowFee); }
    var deviation := DevBps(pool.reserveLo, pool.reserveHi, oracle);
    if deviation.None? { return Hold(Unpriceable); }
    var dev := deviation.value;
    PriceableFits(pool, oracle);
    var side := SellBtc;
    if dev > cfg.bandBps { side := SellBtc; }
    else if dev + cfg.bandBps < 0 { side := BuyBtc; }
    else { return Hold(InBand(dev)); }
    var unitIn := if side == SellBtc then pool.unitLo else pool.unitHi;
    var unitOut := if side == SellBtc then pool.unitHi else pool.unitLo;
    var floor := if side == SellBtc then cfg.btcFloor else cfg.usdtFloor;
    var balance := if side == SellBtc then balances.lo else balances.hi;
    var minIn := if side == SellBtc then minSwapIn.lo else minSwapIn.hi;
    var amountIn, _ := LargestNonCrossing(side, pool, oracle);
    if amountIn == 0 { return Hold(NoSizeAvailable(dev)); }
    amountIn := Min(amountIn, MaxTradeCap(side, cfg.maxTradeMicroUsd, oracle));
    amountIn := Min(amountIn, SaturatingSub(balance, floor));
    if amountIn < minIn { return Hold(BelowMinSwapIn(amountIn)); }
    if AmountOut(ReserveIn(side, pool), ReserveOut(side, pool), amountIn, pool.fee).Err? { return Hold(RoundsToZero(amountIn)); }
    d := Trade(unitIn, unitOut, amountIn);
  }
}
