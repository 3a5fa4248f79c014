/**
 The keeper against the pool: what a decided trade respects, that the ledger
 admits it and settles where the keeper expects, and that repeated ticks
 approach the oracle from one side and stop.
 */
module KeeperRuns {
  import opened Basics
  import opened Arith
  import opened Curve
  import opened CurveTheorems
  import opened Keeper
  import Ledger
  import LI = LedgerInvariants
  import LR = LedgerRuns

  predicate InRange(pool: PoolState, oracle: u128) {
    InCap(pool.reserveLo) && InCap(pool.reserveHi) && pool.unitLo != pool.unitHi && 1 <= oracle <= MAX_MICRO_USD_PER_BTC
  }

  /** The exact comparison: pool price at or above the oracle price. */
  predicate AtOrAbove(pool: PoolState, oracle: u128) {
    pool.reserveHi * DECIMAL_GAP >= pool.reserveLo * oracle
  }

  predicate AtOrBelow(pool: PoolState, oracle: u128) {
    pool.reserveHi * DECIMAL_GAP <= pool.reserveLo * oracle
  }

  function TradeSide(pool: PoolState, d: Decision): Side
    requires d.Trade?
  {
    if d.unitIn == pool.unitLo then SellBtc else BuyBtc
  }

  // -------------------------------------------------------------- deviation

  /** For pools and prices in range the deviation exists and has the sign of
      the exact comparison's difference. */
  lemma DeviationSign(pool: PoolState, oracle: u128)
    requires InRange(pool, oracle)
    ensures DevBps(pool.reserveLo, pool.reserveHi, oracle).Some?
    ensures DevBps(pool.reserveLo, pool.reserveHi, oracle).value > 0 ==> !AtOrBelow(pool, oracle)
    ensures DevBps(pool.reserveLo, pool.reserveHi, oracle).value < 0 ==> !AtOrAbove(pool, oracle)
    ensures var num, den := pool.reserveHi * DECIMAL_GAP - pool.reserveLo * oracle, pool.reserveLo * oracle;
            den >= 1 && DevBps(pool.reserveLo, pool.reserveHi, oracle).value == TruncDiv(SaturatingMulI128(num, BPS), den)
  {
    MulBoth(pool.reserveLo, MAX_RESERVE, oracle, MAX_MICRO_USD_PER_BTC);
    MulBoth(1, pool.reserveLo, 1, oracle);
    MulBoth(pool.reserveHi, MAX_RESERVE, DECIMAL_GAP, DECIMAL_GAP);
    var num, den := pool.reserveHi * DECIMAL_GAP - pool.reserveLo * oracle, pool.reserveLo * oracle;
    if num >= 0 { DivFloor(SaturatingMulI128(num, BPS), den); }
    if num <= 0 { DivFloor(-SaturatingMulI128(num, BPS), den); }
  }

  // ------------------------------------------------------- what a trade is

  /** Every clamp of a decided trade, in the terms of the operator's limits. */
  lemma TradeRespectsLimits(pool: PoolState, minSwapIn: MinSwapIn, oracle: u128, balances: Balances, cfg: KeeperConfig)
    requires InRange(pool, oracle) && DecideSpec(pool, minSwapIn, oracle, balances, cfg).Trade?
    ensures var d := DecideSpec(pool, minSwapIn, oracle, balances, cfg);
            var side, x := TradeSide(pool, d), d.amountIn;
            (d.unitIn, d.unitOut) == (if side == SellBtc then (pool.unitLo, pool.unitHi) else (pool.unitHi, pool.unitLo)) &&
            x >= 1 && ReserveIn(side, pool) + x <= MAX_RESERVE &&
            AmountOut(ReserveIn(side, pool), ReserveOut(side, pool), x, pool.fee).Ok? &&
            !CrossesTarget(side, pool, x, oracle) &&
            (side == SellBtc ==> !AtOrBelow(pool, oracle) && minSwapIn.lo <= x && x + cfg.btcFloor <= balances.lo &&
                                 x * oracle <= cfg.maxTradeMicroUsd * DECIMAL_GAP) &&
            (side == BuyBtc ==> !AtOrAbove(pool, oracle) && minSwapIn.hi <= x && x + cfg.usdtFloor <= balances.hi &&
                                x <= cfg.maxTradeMicroUsd)
  {
    hide AmountOut, CrossesTarget, BestSize, DevBps, MaxTradeCap, AtOrAbove, AtOrBelow;
    DeviationSign(pool, oracle);
    var d := DecideSpec(pool, minSwapIn, oracle, balances, cfg);
    var side, x := TradeSide(pool, d), d.amountIn;
    NonZeroTrade(ReserveIn(side, pool), ReserveOut(side, pool), x, pool.fee);
    CapIsDollars(side, cfg.maxTradeMicroUsd, oracle, x);
    SmallerThanBest(side, pool, oracle, x);
  }

  /** And no larger size would have respected them all: it would overfill the
      reserve, pass the oracle, exceed the dollar cap or break the floor. */
  lemma TradeIsLargest(pool: PoolState, minSwapIn: MinSwapIn, oracle: u128, balances: Balances, cfg: KeeperConfig, larger: u64)
    requires InRange(pool, oracle) && DecideSpec(pool, minSwapIn, oracle, balances, cfg).Trade?
    requires larger > DecideSpec(pool, minSwapIn, oracle, balances, cfg).amountIn
    ensures var side := TradeSide(pool, DecideSpec(pool, minSwapIn, oracle, balances, cfg));
            || ReserveIn(side, pool) + larger > MAX_RESERVE
            || CrossesTarget(side, pool, larger, oracle)
            || (side == SellBtc && (larger * oracle > Min(cfg.maxTradeMicroUsd * DECIMAL_GAP, U128_MAX) ||
                                    larger + cfg.btcFloor > balances.lo))
            || (side == BuyBtc && (larger > cfg.maxTradeMicroUsd || larger + cfg.usdtFloor > balances.hi))
  {
    hide AmountOut, CrossesTarget, DevBps, MaxTradeCap;
    var side := TradeSide(pool, DecideSpec(pool, minSwapIn, oracle, balances, cfg));
    if larger > MaxTradeCap(side, cfg.maxTradeMicroUsd, oracle) { BeyondCap(side, cfg.maxTradeMicroUsd, oracle, larger); }
  }

  lemma BeyondCap(side: Side, maxMicroUsd: u128, oracle: u128, x: u64)
    requires oracle >= 1 && x > MaxTradeCap(side, maxMicroUsd, oracle)
    ensures if side == SellBtc then x * oracle > Min(maxMicroUsd * DECIMAL_GAP, U128_MAX) else x > maxMicroUsd
  {
    if side == SellBtc {
      var cap := Min(maxMicroUsd * DECIMAL_GAP, U128_MAX);
      MulBoth(0, maxMicroUsd, 0, DECIMAL_GAP);
      DivFloor(cap, oracle);
      MulMono(cap / oracle + 1, x, oracle);
    }
  }

  lemma NonZeroTrade(a: u64, b: u64, x: u64, fee: u16)
    requires AmountOut(a, b, x, fee).Ok?
    ensures x >= 1
  {
  }

  lemma CapIsDollars(side: Side, maxMicroUsd: u128, oracle: u128, x: u64)
    requires oracle >= 1 && x <= MaxTradeCap(side, maxMicroUsd, oracle)
    ensures if side == SellBtc then x * oracle <= Min(maxMicroUsd * DECIMAL_GAP, U128_MAX) else x <= maxMicroUsd
  {
    if side == SellBtc {
      var cap := Min(maxMicroUsd * DECIMAL_GAP, U128_MAX);
      MulBoth(0, maxMicroUsd, 0, DECIMAL_GAP);
      DivFloor(cap, oracle);
      MulMono(x, cap / oracle, oracle);
    }
  }

  /** Anything up to the best size is executable and does not cross. */
  lemma SmallerThanBest(side: Side, pool: PoolState, oracle: u128, x: u64)
    requires InRange(pool, oracle) && 1 <= x <= BestSize(side, pool, oracle)
    ensures ReserveIn(side, pool) + x <= MAX_RESERVE && !CrossesTarget(side, pool, x, oracle)
  {
    hide CrossesTarget, BestUpTo, PriceFits;
    AcceptedPriceFits(side, pool, oracle);
    if CrossesTarget(side, pool, x, oracle) { CrossingIsMonotone(side, pool, x, BestSize(side, pool, oracle), oracle); }
  }

  // --------------------------------------------------------------- decisions

  /** The side a correction is wanted on, by exact cross-multiplication: the
      pool's price is off the oracle by more than the band, counted in whole
      basis points. Only the gap below the oracle can leave `i128`. */
  function Wanted(pool: PoolState, oracle: u128, band: u64): Option<Side> {
    var a, b := pool.reserveHi * DECIMAL_GAP, pool.reserveLo * oracle;
    if (a - b) * BPS >= (band + 1) * b then Some(SellBtc)
    else if ScaledGap(pool, oracle) >= (band + 1) * b then Some(BuyBtc)
    else None
  }

  /** The oracle side is positive and inside `i128`. */
  predicate Priceable(pool: PoolState, oracle: u128) {
    1 <= pool.reserveLo * oracle <= I128_MAX
  }

  lemma PriceableIff(pool: PoolState, oracle: u128)
    ensures DevBps(pool.reserveLo, pool.reserveHi, oracle).Some? <==> Priceable(pool, oracle)
    ensures Priceable(pool, oracle) ==>
              var num, den := pool.reserveHi * DECIMAL_GAP - pool.reserveLo * oracle, pool.reserveLo * oracle;
              DevBps(pool.reserveLo, pool.reserveHi, oracle).value == TruncDiv(SaturatingMulI128(num, BPS), den)
  {
    MulBoth(pool.reserveHi, U64_MAX, DECIMAL_GAP, DECIMAL_GAP);
    MulBoth(0, pool.reserveLo, 0, oracle);
  }

  lemma SideIsWanted(pool: PoolState, oracle: u128, band: u64)
    requires Priceable(pool, oracle)
    ensures SideFor(DevBps(pool.reserveLo, pool.reserveHi, oracle).value, band) == Wanted(pool, oracle, band)
  {
    hide DevBps;
    PriceableIff(pool, oracle);
    var a, b := pool.reserveHi * DECIMAL_GAP, pool.reserveLo * oracle;
    MulBoth(pool.reserveHi, U64_MAX, DECIMAL_GAP, DECIMAL_GAP);
    MulBoth(1, band + 1, 1, b);
    if a >= b { FloorAtMost((a - b) * BPS, b, band); } else { FloorAtMost(ScaledGap(pool, oracle), b, band); }
    DeviationMagnitude(pool, oracle, DevBps(pool.reserveLo, pool.reserveHi, oracle).value);
  }

  lemma DeviationMagnitude(pool: PoolState, oracle: u128, dev: int)
    requires Priceable(pool, oracle)
    requires var num, den := pool.reserveHi * DECIMAL_GAP - pool.reserveLo * oracle, pool.reserveLo * oracle;
             dev == TruncDiv(SaturatingMulI128(num, BPS), den)
    ensures var a, b := pool.reserveHi * DECIMAL_GAP, pool.reserveLo * oracle;
            if a >= b then dev == (a - b) * BPS / b && dev >= 0 else dev == -(ScaledGap(pool, oracle) / b) && dev <= 0
  {
    var a, b := pool.reserveHi * DECIMAL_GAP, pool.reserveLo * oracle;
    MulBoth(pool.reserveHi, U64_MAX, DECIMAL_GAP, DECIMAL_GAP);
    if a >= b { DivFloor((a - b) * BPS, b); } else { DivFloor(ScaledGap(pool, oracle), b); }
  }

  /** A size every limit allows: it fits the reserve and does not cross, its
      value is within the dollar cap, and it leaves the floor. Nothing at all
      is always allowed. */
  predicate WithinLimits(side: Side, pool: PoolState, oracle: u128, balances: Balances, cfg: KeeperConfig, x: u64) {
    x == 0 ||
    (&& ReserveIn(side, pool) + x <= MAX_RESERVE && !CrossesTarget(side, pool, x, oracle)
     && (if side == SellBtc then x * oracle <= Min(cfg.maxTradeMicroUsd * DECIMAL_GAP, U128_MAX) else x <= cfg.maxTradeMicroUsd)
     && (if side == SellBtc then x + cfg.btcFloor <= balances.lo else x + cfg.usdtFloor <= balances.hi))
  }

  /** The clamped size is the largest of those. */
  lemma ClampedIsLargest(side: Side, pool: PoolState, oracle: u128, balances: Balances, cfg: KeeperConfig, x: u64)
    requires PriceFits(side, pool, oracle) && oracle >= 1
    ensures x <= Clamped(side, BestSize(side, pool, oracle), oracle, balances, cfg) <==> WithinLimits(side, pool, oracle, balances, cfg, x)
  {
    hide CrossesTarget, BestUpTo, PriceFits, MaxTradeCap;
    UpToBest(side, pool, oracle, x);
    if x <= MaxTradeCap(side, cfg.maxTradeMicroUsd, oracle) { CapIsDollars(side, cfg.maxTradeMicroUsd, oracle, x); }
    else { BeyondCap(side, cfg.maxTradeMicroUsd, oracle, x); }
  }

  lemma UpToBest(side: Side, pool: PoolState, oracle: u128, x: u64)
    requires PriceFits(side, pool, oracle)
    ensures x <= BestSize(side, pool, oracle) <==>
            x == 0 || (ReserveIn(side, pool) + x <= MAX_RESERVE && !CrossesTarget(side, pool, x, oracle))
  {
    hide CrossesTarget, BestUpTo, PriceFits;
    var best := BestSize(side, pool, oracle);
    if 1 <= x <= best && CrossesTarget(side, pool, x, oracle) { CrossingIsMonotone(side, pool, x, best, oracle); }
  }

  /** Before a side is chosen: which pool, band and price hold, and when the
      deviation is inside the band. */
  lemma HoldsBeforeSizing(pool: PoolState, minSwapIn: MinSwapIn, oracle: u128, balances: Balances, cfg: KeeperConfig)
    ensures var d := DecideSpec(pool, minSwapIn, oracle, balances, cfg);
            var live := pool.reserveLo > 0 && pool.reserveHi > 0;
            var wide := cfg.bandBps >= 10 * pool.fee;
            (d == Hold(EmptyPool) <==> pool.reserveLo == 0 && pool.reserveHi == 0) &&
            (d == Hold(OneSidedPool) <==> (pool.reserveLo == 0) != (pool.reserveHi == 0)) &&
            (d == Hold(BandBelowFee) <==> live && !wide) &&
            (d == Hold(Unpriceable) <==> live && wide && !Priceable(pool, oracle)) &&
            (d.Hold? && d.reason.InBand? <==> live && wide && Priceable(pool, oracle) && Wanted(pool, oracle, cfg.bandBps) == None) &&
            (d.Hold? && d.reason.InBand? ==> Some(d.reason.devBps) == DevBps(pool.reserveLo, pool.reserveHi, oracle))
  {
    hide DevBps, BestSize, AmountOut, Clamped, Wanted, SideFor;
    PriceableIff(pool, oracle);
    if Priceable(pool, oracle) { SideIsWanted(pool, oracle, cfg.bandBps); }
  }

  /** Outside the band: the keeper trades `x`, paying in on the wanted side, if
      and only if `x` is the largest size within the limits, is at least the
      dust threshold and settles; each other hold has its own condition. */
  lemma DecidesExactly(pool: PoolState, minSwapIn: MinSwapIn, oracle: u128, balances: Balances, cfg: KeeperConfig, side: Side, x: u64)
    requires pool.reserveLo > 0 && pool.reserveHi > 0 && cfg.bandBps >= 10 * pool.fee && Priceable(pool, oracle)
    requires Wanted(pool, oracle, cfg.bandBps) == Some(side)
    ensures var d := DecideSpec(pool, minSwapIn, oracle, balances, cfg);
            var dust, units := if side == SellBtc then minSwapIn.lo else minSwapIn.hi,
                               if side == SellBtc then (pool.unitLo, pool.unitHi) else (pool.unitHi, pool.unitLo);
            var sizeable := exists y: u64 :: y >= 1 && ReserveIn(side, pool) + y <= MAX_RESERVE && !CrossesTarget(side, pool, y, oracle);
            var largest := WithinLimits(side, pool, oracle, balances, cfg, x) &&
                           forall y: u64 :: y > x ==> !WithinLimits(side, pool, oracle, balances, cfg, y);
            var settles := AmountOut(ReserveIn(side, pool), ReserveOut(side, pool), x, pool.fee).Ok?;
            (d.Hold? && d.reason.NoSizeAvailable? <==> !sizeable) &&
            (d == Trade(units.0, units.1, x) <==> largest && x >= dust && settles) &&
            (d == Hold(BelowMinSwapIn(x)) <==> sizeable && largest && x < dust) &&
            (d == Hold(RoundsToZero(x)) <==> sizeable && largest && x >= dust && !settles)
  {
    hide DecideSpec, BestSize, AmountOut, Clamped, Wanted, WithinLimits, CrossesTarget, Priceable, PriceFits;
    SizedDecision(pool, minSwapIn, oracle, balances, cfg, side);
    PriceableIff(pool, oracle);
    PriceableFits(pool, oracle);
    OracleIsPositive(pool, oracle);
    SizeableIffBest(side, pool, oracle);
    LargestIsClamped(side, pool, oracle, balances, cfg, x);
    ClampedBelow(side, BestSize(side, pool, oracle), oracle, balances, cfg);
    NothingDoesNotSettle(ReserveIn(side, pool), ReserveOut(side, pool), pool.fee);
  }

  /** The decision from the two sizes: the best one and what the clamps leave. */
  lemma SizedDecision(pool: PoolState, minSwapIn: MinSwapIn, oracle: u128, balances: Balances, cfg: KeeperConfig, side: Side)
    requires pool.reserveLo > 0 && pool.reserveHi > 0 && cfg.bandBps >= 10 * pool.fee && Priceable(pool, oracle)
    requires Wanted(pool, oracle, cfg.bandBps) == Some(side)
    ensures var d := DecideSpec(pool, minSwapIn, oracle, balances, cfg);
            var best := BestSize(side, pool, oracle);
            var amount := Clamped(side, best, oracle, balances, cfg);
            if best == 0 then d.Hold? && d.reason.NoSizeAvailable?
            else if amount < (if side == SellBtc then minSwapIn.lo else minSwapIn.hi) then d == Hold(BelowMinSwapIn(amount))
            else if AmountOut(ReserveIn(side, pool), ReserveOut(side, pool), amount, pool.fee).Err? then d == Hold(RoundsToZero(amount))
            else d == if side == SellBtc then Trade(pool.unitLo, pool.unitHi, amount) else Trade(pool.unitHi, pool.unitLo, amount)
  {
    hide DevBps, BestSize, AmountOut, Clamped, Wanted, SideFor, Priceable;
    PriceableIff(pool, oracle);
    SideIsWanted(pool, oracle, cfg.bandBps);
  }

  lemma SizeableIffBest(side: Side, pool: PoolState, oracle: u128)
    requires PriceFits(side, pool, oracle)
    ensures BestSize(side, pool, oracle) >= 1 <==>
            exists y: u64 :: y >= 1 && ReserveIn(side, pool) + y <= MAX_RESERVE && !CrossesTarget(side, pool, y, oracle)
  {
    hide CrossesTarget, BestSize, PriceFits;
    forall y: u64 | y >= 1 && ReserveIn(side, pool) + y <= MAX_RESERVE && !CrossesTarget(side, pool, y, oracle)
      ensures BestSize(side, pool, oracle) >= 1
    {
      UpToBest(side, pool, oracle, y);
    }
    UpToBest(side, pool, oracle, BestSize(side, pool, oracle));
  }

  lemma LargestIsClamped(side: Side, pool: PoolState, oracle: u128, balances: Balances, cfg: KeeperConfig, x: u64)
    requires PriceFits(side, pool, oracle) && oracle >= 1
    ensures x == Clamped(side, BestSize(side, pool, oracle), oracle, balances, cfg) <==>
            WithinLimits(side, pool, oracle, balances, cfg, x) &&
            forall y: u64 :: y > x ==> !WithinLimits(side, pool, oracle, balances, cfg, y)
  {
    hide CrossesTarget, BestSize, PriceFits, Clamped, WithinLimits;
    var amount := Clamped(side, BestSize(side, pool, oracle), oracle, balances, cfg);
    ClampedIsLargest(side, pool, oracle, balances, cfg, x);
    ClampedIsLargest(side, pool, oracle, balances, cfg, amount);
    forall y: u64 | y > amount ensures !WithinLimits(side, pool, oracle, balances, cfg, y) {
      ClampedIsLargest(side, pool, oracle, balances, cfg, y);
    }
  }

  lemma OracleIsPositive(pool: PoolState, oracle: u128)
    requires Priceable(pool, oracle)
    ensures oracle >= 1
  {
  }

  lemma ClampedBelow(side: Side, size: u64, oracle: u128, balances: Balances, cfg: KeeperConfig)
    ensures Clamped(side, size, oracle, balances, cfg) <= size
  {
    hide MaxTradeCap;
  }

  lemma NothingDoesNotSettle(a: u64, b: u64, fee: u16)
    ensures AmountOut(a, b, 0, fee).Err?
  {
  }

  // ------------------------------------------------------------------ ticks

  /** What may differ from tick to tick: the voted fee, the dust thresholds,
      the bot's balances and the operator's configuration. */
  datatype Tick = Tick(fee: u16, minSwapIn: MinSwapIn, balances: Balances, cfg: KeeperConfig)

  ghost function DecisionAt(pool: PoolState, oracle: u128, t: Tick): Decision {
    DecideSpec(pool.(fee := t.fee), t.minSwapIn, oracle, t.balances, t.cfg)
  }

  /** The pool after a tick with no other traders. */
  ghost function AfterTick(pool: PoolState, oracle: u128, t: Tick): PoolState {
    var d := DecisionAt(pool, oracle, t);
    if d.Hold? then pool
    else match ApplyTrade(pool.(fee := t.fee), d.unitIn, d.amountIn)
      case None => pool
      case Some((lo, hi)) => pool.(reserveLo := lo, reserveHi := hi)
  }

  /** One trade moves towards the oracle and does not pass it, and grows the
      reserve it pays into. */
  lemma TradeApproaches(pool: PoolState, oracle: u128, t: Tick)
    requires InRange(pool, oracle) && DecisionAt(pool, oracle, t).Trade?
    ensures var d, pool' := DecisionAt(pool, oracle, t), AfterTick(pool, oracle, t);
            InRange(pool', oracle) &&
            ApplyTrade(pool.(fee := t.fee), d.unitIn, d.amountIn) == Some((pool'.reserveLo, pool'.reserveHi)) &&
            (TradeSide(pool, d) == SellBtc ==> !AtOrBelow(pool, oracle) && AtOrAbove(pool', oracle) &&
                                               pool'.reserveLo > pool.reserveLo && pool'.reserveHi < pool.reserveHi) &&
            (TradeSide(pool, d) == BuyBtc ==> !AtOrAbove(pool, oracle) && AtOrBelow(pool', oracle) &&
                                              pool'.reserveHi > pool.reserveHi && pool'.reserveLo < pool.reserveLo)
  {
    hide AmountOut, CrossesTarget, DecideSpec, PriceFits;
    var now := pool.(fee := t.fee);
    var d := DecisionAt(pool, oracle, t);
    TradeRespectsLimits(now, t.minSwapIn, oracle, t.balances, t.cfg);
    var side := TradeSide(now, d);
    var y := AmountOut(ReserveIn(side, now), ReserveOut(side, now), d.amountIn, now.fee).value;
    AcceptedPriceFits(side, now, oracle);
    CrossingAt(side, now, d.amountIn, oracle, y);
  }

  ghost function AfterTicks(pool: PoolState, oracle: u128, ticks: seq<Tick>): PoolState
    decreases |ticks|
  {
    if ticks == [] then pool else AfterTicks(AfterTick(pool, oracle, ticks[0]), oracle, ticks[1..])
  }

  ghost function TradesOf(side: Side, pool: PoolState, oracle: u128, ticks: seq<Tick>): nat
    decreases |ticks|
  {
    if ticks == [] then 0
    else
      var d := DecisionAt(pool, oracle, ticks[0]);
      (if d.Trade? && TradeSide(pool, d) == side then 1 else 0) + TradesOf(side, AfterTick(pool, oracle, ticks[0]), oracle, ticks[1..])
  }

  /** Over any run of ticks at one oracle price, a pool that starts at or above
      it stays there, is only ever sold into, and is traded with at most as many
      times as its BTC reserve has room to grow; and the mirror image below. */
  lemma {:induction false} KeeperNeverOscillates(pool: PoolState, oracle: u128, ticks: seq<Tick>)
    requires InRange(pool, oracle)
    ensures InRange(AfterTicks(pool, oracle, ticks), oracle)
    ensures AtOrAbove(pool, oracle) ==>
              AtOrAbove(AfterTicks(pool, oracle, ticks), oracle) && TradesOf(BuyBtc, pool, oracle, ticks) == 0 &&
              TradesOf(SellBtc, pool, oracle, ticks) <= AfterTicks(pool, oracle, ticks).reserveLo - pool.reserveLo &&
              AfterTicks(pool, oracle, ticks).reserveLo <= MAX_RESERVE
    ensures AtOrBelow(pool, oracle) ==>
              AtOrBelow(AfterTicks(pool, oracle, ticks), oracle) && TradesOf(SellBtc, pool, oracle, ticks) == 0 &&
              TradesOf(BuyBtc, pool, oracle, ticks) <= AfterTicks(pool, oracle, ticks).reserveHi - pool.reserveHi &&
              AfterTicks(pool, oracle, ticks).reserveHi <= MAX_RESERVE
    decreases |ticks|
  {
    hide AtOrAbove, AtOrBelow, DecisionAt;
    if ticks != [] {
      var t := ticks[0];
      if DecisionAt(pool, oracle, t).Trade? { TradeApproaches(pool, oracle, t); }
      KeeperNeverOscillates(AfterTick(pool, oracle, t), oracle, ticks[1..]);
    }
  }

  function Abs(x: int): nat {
    if x >= 0 then x else -x
  }

  /** The scaled difference leaves `i128`, so `DevBps` reports a clipped value. */
  predicate DeviationSaturates(pool: PoolState, oracle: u128) {
    (pool.reserveLo * oracle - pool.reserveHi * DECIMAL_GAP) * BPS > -I128_MIN
  }

  /** Trading never increases the reported deviation, as long as the scaled
      difference stays inside `i128`. */
  lemma TradeShrinksDeviation(pool: PoolState, oracle: u128, t: Tick)
    requires InRange(pool, oracle) && DecisionAt(pool, oracle, t).Trade?
    requires !DeviationSaturates(pool, oracle)
    ensures var pool' := AfterTick(pool, oracle, t);
            var before, after := DevBps(pool.reserveLo, pool.reserveHi, oracle), DevBps(pool'.reserveLo, pool'.reserveHi, oracle);
            before.Some? && after.Some? && Abs(after.value) <= Abs(before.value)
  {
    hide DecisionAt, DevBps, AfterTick;
    TradeApproaches(pool, oracle, t);
    var pool' := AfterTick(pool, oracle, t);
    DeviationSign(pool, oracle);
    DeviationSign(pool', oracle);
    var a, b := pool.reserveHi * DECIMAL_GAP, pool.reserveLo * oracle;
    var a', b' := pool'.reserveHi * DECIMAL_GAP, pool'.reserveLo * oracle;
    if TradeSide(pool, DecisionAt(pool, oracle, t)) == SellBtc {
      MulMono(pool.reserveLo, pool'.reserveLo, oracle);
      MulBoth(pool.reserveHi, MAX_RESERVE, DECIMAL_GAP, DECIMAL_GAP);
      DivMono((a' - b') * BPS, b', (a - b) * BPS, b);
    } else {
      MulMono(pool'.reserveLo, pool.reserveLo, oracle);
      MulMono(b' - a', b - a, BPS);
      ShrinkingGap(a, b, a', b');
    }
  }

  /** `(b - a) / b` falls when `a` rises and `b` falls. */
  lemma ShrinkingGap(a: int, b: int, a': int, b': int)
    requires 0 <= a <= a' <= b' <= b && 0 < b'
    ensures (b' - a') * BPS / b' <= (b - a) * BPS / b
  {
    var q := (b' - a') * BPS / b';
    DivFloor((b' - a') * BPS, b');
    // q * b' <= (b' - a') * BPS, hence (BPS - q) * b' >= a' * BPS >= a * BPS
    MulBoth(0, q, 0, b');
    assert q <= BPS by { MulMono(b' - a', b', BPS); DivAtMost((b' - a') * BPS, b', BPS); }
    assert (BPS - q) * b' == BPS * b' - q * b';
    MulMono(b', b, BPS - q);
    assert (BPS - q) * b' == b' * (BPS - q) && (BPS - q) * b == b * (BPS - q);
    assert (BPS - q) * b == BPS * b - q * b;
    assert q * b <= (b - a) * BPS;
    DivAtLeast((b - a) * BPS, b, q);
  }

  /** The scaled difference below the oracle as `DevBps` sees it, clipped. */
  function ScaledGap(pool: PoolState, oracle: u128): int {
    Min(-I128_MIN, (pool.reserveLo * oracle - pool.reserveHi * DECIMAL_GAP) * BPS)
  }

  /** Below the oracle the reported magnitude is the floor of that over the
      oracle side. */
  lemma ReportIsFloor(pool: PoolState, oracle: u128)
    requires InRange(pool, oracle) && AtOrBelow(pool, oracle)
    ensures pool.reserveLo * oracle >= 1 && ScaledGap(pool, oracle) >= 0
    ensures var dev := DevBps(pool.reserveLo, pool.reserveHi, oracle);
            dev.Some? && Abs(dev.value) == ScaledGap(pool, oracle) / (pool.reserveLo * oracle)
  {
    hide DevBps;
    DeviationSign(pool, oracle);
    DivFloor(ScaledGap(pool, oracle), pool.reserveLo * oracle);
  }

  lemma FloorAtMost(n: int, d: int, q: int)
    requires 0 <= n && 0 < d
    ensures n / d <= q <==> n < (q + 1) * d
  {
    if n < (q + 1) * d { DivBelow(n, d, q + 1); } else { DivAtLeast(n, d, q + 1); }
  }

  /** A smaller fraction has a floor no larger. */
  lemma FloorOfSmaller(n: int, d: int, n': int, d': int)
    requires 0 <= n && 0 < d && 0 <= n' && 0 < d' && n * d' <= n' * d
    ensures n / d <= n' / d'
  {
    var q := n / d;
    DivFloor(n, d);
    MulMono(q * d, n, d');
    assert q * d * d' == q * d' * d;
    MulCancel(q * d', n', d);
    DivAtLeast(n', d', q);
  }

  /** Exactly when a trade does not increase the reported deviation: when the
      scaled difference fits before it, or else when the clipped difference it
      leaves is below the next multiple of what it leaves on the oracle side.
      Up to the floors that is a comparison of the two clipped fractions. All
      of it is known from the trade's predicted reserves. */
  lemma DeviationShrinksIff(pool: PoolState, oracle: u128, t: Tick)
    requires InRange(pool, oracle) && DecisionAt(pool, oracle, t).Trade?
    ensures var pool' := AfterTick(pool, oracle, t);
            var before, after := DevBps(pool.reserveLo, pool.reserveHi, oracle), DevBps(pool'.reserveLo, pool'.reserveHi, oracle);
            var b, b', left := pool.reserveLo * oracle, pool'.reserveLo * oracle, ScaledGap(pool', oracle);
            b >= 1 && before.Some? && after.Some? &&
            (Abs(after.value) <= Abs(before.value) <==> !DeviationSaturates(pool, oracle) || left < (-I128_MIN / b + 1) * b') &&
            (DeviationSaturates(pool, oracle) && left * b <= -I128_MIN * b' ==> Abs(after.value) <= Abs(before.value)) &&
            (DeviationSaturates(pool, oracle) && left * b >= -I128_MIN * b' ==> Abs(after.value) >= Abs(before.value))
  {
    hide DecisionAt, DevBps, AfterTick;
    DeviationSign(pool, oracle);
    if !DeviationSaturates(pool, oracle) {
      TradeShrinksDeviation(pool, oracle, t);
    } else {
      TradeApproaches(pool, oracle, t);
      var pool' := AfterTick(pool, oracle, t);
      SaturatedIsBelow(pool, oracle);
      ReportIsFloor(pool, oracle);
      ReportIsFloor(pool', oracle);
      var b, b', left := pool.reserveLo * oracle, pool'.reserveLo * oracle, ScaledGap(pool', oracle);
      FloorAtMost(left, b', -I128_MIN / b);
      if left * b <= -I128_MIN * b' { FloorOfSmaller(left, b', -I128_MIN, b); }
      if left * b >= -I128_MIN * b' { FloorOfSmaller(-I128_MIN, b, left, b'); }
    }
  }

  lemma SaturatedIsBelow(pool: PoolState, oracle: u128)
    requires DeviationSaturates(pool, oracle)
    ensures AtOrBelow(pool, oracle) && !AtOrAbove(pool, oracle) && ScaledGap(pool, oracle) == -I128_MIN
  {
  }

  /** While it saturates on both sides of a trade, the report never shrinks. */
  lemma SaturatedDeviationNeverShrinks(pool: PoolState, oracle: u128, t: Tick)
    requires InRange(pool, oracle) && DecisionAt(pool, oracle, t).Trade?
    requires DeviationSaturates(pool, oracle) && DeviationSaturates(AfterTick(pool, oracle, t), oracle)
    ensures var pool' := AfterTick(pool, oracle, t);
            var before, after := DevBps(pool.reserveLo, pool.reserveHi, oracle), DevBps(pool'.reserveLo, pool'.reserveHi, oracle);
            before.Some? && after.Some? && Abs(after.value) >= Abs(before.value)
  {
    hide DecisionAt, DevBps, AfterTick;
    TradeApproaches(pool, oracle, t);
    var pool' := AfterTick(pool, oracle, t);
    DeviationShrinksIff(pool, oracle, t);
    SaturatedIsBelow(pool, oracle);
    SaturatedIsBelow(pool', oracle);
    MulMono(pool'.reserveLo, pool.reserveLo, oracle);
    MulMono(pool'.reserveLo * oracle, pool.reserveLo * oracle, -I128_MIN);
  }

  /** One tick of a bot that may spend `cap` on the pool that is all BTC. */
  function BuyTick(cap: u64): Tick {
    Tick(0, MinSwapIn(1, 1), Balances(0, cap), KeeperConfig(0, cap, 0, 0))
  }

  const BTC_ONLY := PoolState(0, 1, MAX_RESERVE, 1, 0)

  /** Past that bound the saturating product makes a helpful trade look worse:
      saturating before and after, at the highest accepted price. */
  lemma SaturationDistortsDeviation()
    ensures var p := MAX_MICRO_USD_PER_BTC; var pool' := AfterTick(BTC_ONLY, p, BuyTick(1));
            DecisionAt(BTC_ONLY, p, BuyTick(1)) == Trade(1, 0, 1) &&
            DeviationSaturates(BTC_ONLY, p) && DeviationSaturates(pool', p) &&
            DevBps(BTC_ONLY.reserveLo, BTC_ONLY.reserveHi, p) == Some(-590) &&
            DevBps(pool'.reserveLo, pool'.reserveHi, p) == Some(-1180)
  {
    DistortedFigures();
    BuyHappens(MAX_MICRO_USD_PER_BTC, 1, MAX_RESERVE / 2);
  }

  /** Saturating before and not after, either outcome occurs: a small buy makes
      the report larger, a large one makes it smaller. */
  lemma MixedSaturationGoesEitherWay()
    ensures var p := 100_000_000_000_000_000;
            var small, large := AfterTick(BTC_ONLY, p, BuyTick(1)), AfterTick(BTC_ONLY, p, BuyTick(500_000_000_000));
            DecisionAt(BTC_ONLY, p, BuyTick(1)).Trade? && DecisionAt(BTC_ONLY, p, BuyTick(500_000_000_000)).Trade? &&
            DeviationSaturates(BTC_ONLY, p) && !DeviationSaturates(small, p) && !DeviationSaturates(large, p) &&
            DevBps(BTC_ONLY.reserveLo, BTC_ONLY.reserveHi, p) == Some(-5902) &&
            DevBps(small.reserveLo, small.reserveHi, p) == Some(-9999) &&
            DevBps(large.reserveLo, large.reserveHi, p) == Some(-1326)
  {
    MixedFigures();
    BuyHappens(100_000_000_000_000_000, 1, MAX_RESERVE / 2);
    BuyHappens(100_000_000_000_000_000, 500_000_000_000, 288_230_376_151_135_283);
  }

  /** A buy of the whole cap, when the pool is far from the oracle and that
      size does not cross. */
  lemma BuyHappens(oracle: u128, cap: u64, y: u64)
    requires InRange(BTC_ONLY, oracle) && cap >= 1 && AmountOut(1, MAX_RESERVE, cap, 0) == Ok(y)
    requires !CrossesTarget(BuyBtc, BTC_ONLY, cap, oracle) && cap <= MAX_RESERVE - 1
    requires DevBps(MAX_RESERVE, 1, oracle).Some? && DevBps(MAX_RESERVE, 1, oracle).value < 0
    ensures DecisionAt(BTC_ONLY, oracle, BuyTick(cap)) == Trade(1, 0, cap)
    ensures AfterTick(BTC_ONLY, oracle, BuyTick(cap)) == BTC_ONLY.(reserveLo := MAX_RESERVE - y, reserveHi := 1 + cap)
  {
    hide DevBps, AmountOut, CrossesTarget;
    assert BestSize(BuyBtc, BTC_ONLY, oracle) >= cap;
    assert MaxTradeCap(BuyBtc, cap, oracle) == cap;
  }

  lemma DistortedFigures()
    ensures var p := MAX_MICRO_USD_PER_BTC;
            DevBps(MAX_RESERVE, 1, p) == Some(-590) && DevBps(MAX_RESERVE - MAX_RESERVE / 2, 2, p) == Some(-1180) &&
            AmountOut(1, MAX_RESERVE, 1, 0) == Ok(MAX_RESERVE / 2) && !CrossesTarget(BuyBtc, BTC_ONLY, 1, p)
  {
  }

  lemma MixedFigures()
    ensures var p := 100_000_000_000_000_000;
            DevBps(MAX_RESERVE, 1, p) == Some(-5902) && DevBps(MAX_RESERVE - MAX_RESERVE / 2, 2, p) == Some(-9999) &&
            DevBps(576_461, 500_000_000_001, p) == Some(-1326) &&
            AmountOut(1, MAX_RESERVE, 1, 0) == Ok(MAX_RESERVE / 2) && !CrossesTarget(BuyBtc, BTC_ONLY, 1, p) &&
            AmountOut(1, MAX_RESERVE, 500_000_000_000, 0) == Ok(288_230_376_151_135_283) &&
            !CrossesTarget(BuyBtc, BTC_ONLY, 500_000_000_000, p)
  {
  }

  /** The predicted reserves exist exactly for a unit of the pool and a size
      the curve settles, and add the input and take the payout. */
  lemma PredictedReserves(pool: PoolState, unitIn: u64, x: u64)
    ensures var side := if unitIn == pool.unitLo then SellBtc else BuyBtc;
            var pay := AmountOut(ReserveIn(side, pool), ReserveOut(side, pool), x, pool.fee);
            (ApplyTrade(pool, unitIn, x).Some? <==> unitIn in {pool.unitLo, pool.unitHi} && pay.Ok?) &&
            (ApplyTrade(pool, unitIn, x).Some? ==>
               var after := ApplyTrade(pool, unitIn, x).value;
               after == if unitIn == pool.unitLo then (pool.reserveLo + x, pool.reserveHi - pay.value)
                        else (pool.reserveLo - pay.value, pool.reserveHi + x))
  {
    hide AmountOut;
    var side := if unitIn == pool.unitLo then SellBtc else BuyBtc;
    var pay := AmountOut(ReserveIn(side, pool), ReserveOut(side, pool), x, pool.fee);
    if pay.Ok? { PayoutIsAllowed(ReserveIn(side, pool), ReserveOut(side, pool), x, pool.fee, pay.value); }
  }

  // ------------------------------------------------------------- the ledger

  function Snapshot(cfg: Ledger.Config, n: nat, s: Ledger.Tables, id: Ledger.PoolId): PoolState
    requires n >= 1 && Ledger.ValidConfig(cfg) && id in s.pools
  {
    PoolState(id.lo, id.hi, s.pools[id].reserveLo, s.pools[id].reserveHi, Ledger.ConsensusFee(cfg, n, s.votes, id))
  }

  /** A trade decided on a snapshot is admitted by the server's quote on that
      state, and settles on exactly the reserves the keeper predicts. */
  lemma KeeperTradeSettles(cfg: Ledger.Config, n: nat, s: Ledger.Tables, id: Ledger.PoolId, oracle: u128,
                           balances: Balances, kcfg: KeeperConfig, o: Ledger.Output)
    requires LI.Inv(cfg, n, s) && id in s.pools && id.lo in cfg.units && id.hi in cfg.units && 1 <= oracle <= MAX_MICRO_USD_PER_BTC
    requires var pool := Snapshot(cfg, n, s, id);
             var d := DecideSpec(pool, MinSwapIn(cfg.units[id.lo], cfg.units[id.hi]), oracle, balances, kcfg);
             d.Trade? && o.SwapV0? && o.unitIn == d.unitIn && o.unitOut == d.unitOut && o.amountIn == d.amountIn
    ensures Ledger.QuoteSwap(cfg, n, s.votes, s.pools[id], id, o.unitIn, o.amountIn, None).Ok?
    ensures var (s', r) := Ledger.SwapStep(cfg, n, s, o);
            r.Ok? ==> ApplyTrade(Snapshot(cfg, n, s, id), o.unitIn, o.amountIn) == Some((s'.pools[id].reserveLo, s'.pools[id].reserveHi))
  {
    hide AmountOut, Ledger.ConsensusFee, DecideSpec, Ledger.SwapStep, Ledger.QuoteSwap, LI.PoolSound, Ledger.ValidConfig,
         LI.SharesAddUp, LI.VotesAdmitted, LI.BalancesBounded;
    LI.PoolBounds(s.pools[id]);
    var pool := Snapshot(cfg, n, s, id);
    TradeIsExecutable(pool, MinSwapIn(cfg.units[id.lo], cfg.units[id.hi]), oracle, balances, kcfg);
    QuoteStands(cfg, n, s, id, o.unitIn, o.amountIn);
    LR.QuoteIsSettlement(cfg, n, s, o, id);
  }

  lemma TradeIsExecutable(pool: PoolState, minSwapIn: MinSwapIn, oracle: u128, balances: Balances, cfg: KeeperConfig)
    requires InRange(pool, oracle) && DecideSpec(pool, minSwapIn, oracle, balances, cfg).Trade?
    ensures var d := DecideSpec(pool, minSwapIn, oracle, balances, cfg);
            var side, x := TradeSide(pool, d), d.amountIn;
            (d.unitIn, d.unitOut) == (if side == SellBtc then (pool.unitLo, pool.unitHi) else (pool.unitHi, pool.unitLo)) &&
            ReserveIn(side, pool) + x <= MAX_RESERVE && x >= (if side == SellBtc then minSwapIn.lo else minSwapIn.hi) &&
            AmountOut(ReserveIn(side, pool), ReserveOut(side, pool), x, pool.fee).Ok?
  {
    hide AmountOut, CrossesTarget, DecideSpec;
    TradeRespectsLimits(pool, minSwapIn, oracle, balances, cfg);
  }

  /** An executable size clears every admission check of the quote. */
  lemma QuoteStands(cfg: Ledger.Config, n: nat, s: Ledger.Tables, id: Ledger.PoolId, unitIn: u64, x: u64)
    requires n >= 1 && Ledger.ValidConfig(cfg) && id in s.pools && id.lo in cfg.units && id.hi in cfg.units
    requires (unitIn == id.lo || unitIn == id.hi) && x >= cfg.units[unitIn]
    requires var pool, side := Snapshot(cfg, n, s, id), if unitIn == id.lo then SellBtc else BuyBtc;
             ReserveIn(side, pool) + x <= MAX_RESERVE && AmountOut(ReserveIn(side, pool), ReserveOut(side, pool), x, pool.fee).Ok?
    ensures var pool, side := Snapshot(cfg, n, s, id), if unitIn == id.lo then SellBtc else BuyBtc;
            var quote := Ledger.QuoteSwap(cfg, n, s.votes, s.pools[id], id, unitIn, x, None);
            quote.Ok? && Ok(quote.value.dy) == AmountOut(ReserveIn(side, pool), ReserveOut(side, pool), x, pool.fee)
  {
    hide AmountOut, Ledger.ConsensusFee, Ledger.ValidConfig;
  }
}
