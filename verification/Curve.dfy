/**
 The constant-product curve: floored integer versions of Uniswap V2
 `getAmountOut`, `mint` and `burn`, with every reserve capped at `2^58`.
 Each intermediate product is declared `u128`, so that it fits is a proof
 obligation of the definition.
 */
module Curve {
  import opened Basics
  import opened Arith

  /** Upper bound on any reserve or swap input: `2^58`. */
  const MAX_RESERVE: u64 := 0x400_0000_0000_0000

  /** Shares burned for good when a pool is created. */
  const MINIMUM_LIQUIDITY: u64 := 1000

  datatype CurveError =
    | ZeroAmount
    | ZeroReserve
    | ReserveCapExceeded
    | InvalidFee
    | OutputRoundsToZero
    | InsufficientLiquidity
    | InsufficientInitialLiquidity
    | InsufficientShares
    | Overflow

  datatype MintOutcome = MintOutcome(toOwner: u64, newTotalShares: u64)

  datatype BurnOutcome = BurnOutcome(da: u64, db: u64, newTotalShares: u64)

  /** Integer square root, by its algebraic definition. */
  function ISqrt(n: nat): (r: nat)
    ensures r * r <= n < (r + 1) * (r + 1)
  {
    if n == 0 then 0 else
      var r := ISqrt(n - 1);
      if (r + 1) * (r + 1) <= n then
        assert (r + 2) * (r + 2) == (r + 1) * (r + 1) + 2 * r + 3;
        r + 1
      else r
  }

  function AmountOut(reserveIn: u64, reserveOut: u64, amountIn: u64, feePerMille: u16): (r: Result<u64, CurveError>)
    ensures r.Ok? ==> 1 <= r.value < reserveOut
  {
    if amountIn == 0 then Err(ZeroAmount)
    else if reserveIn == 0 || reserveOut == 0 then Err(ZeroReserve)
    else if amountIn > MAX_RESERVE || reserveIn > MAX_RESERVE || reserveOut > MAX_RESERVE then Err(ReserveCapExceeded)
    else if feePerMille >= 1000 then Err(InvalidFee)
    else
      MulBoth(amountIn, MAX_RESERVE, 1000 - feePerMille, 1000);
      var inWithFee: u128 := amountIn * (1000 - feePerMille);
      MulBoth(inWithFee, MAX_RESERVE * 1000, reserveOut, MAX_RESERVE);
      var numerator: u128 := inWithFee * reserveOut;
      var denominator: u128 := reserveIn * 1000 + inWithFee;
      DivFloor(numerator, denominator);
      var out: u128 := numerator / denominator;
      if out == 0 then Err(OutputRoundsToZero)
      else if out >= reserveOut then Err(InsufficientLiquidity)
      else if out > U64_MAX then Err(Overflow)
      else
        var out64: u64 := out;
        Ok(out64)
  }

  function MintShares(reserveLo: u64, reserveHi: u64, totalShares: u64, da: u64, db: u64): Result<MintOutcome, CurveError> {
    if da == 0 || db == 0 then Err(ZeroAmount)
    else if da > MAX_RESERVE || db > MAX_RESERVE then Err(ReserveCapExceeded)
    else if reserveLo + da > MAX_RESERVE || reserveHi + db > MAX_RESERVE then Err(ReserveCapExceeded)
    else if totalShares == 0 then
      MulBoth(da, MAX_RESERVE, db, MAX_RESERVE);
      var product: u128 := da * db;
      var minted := ISqrt(product);
      if minted > U64_MAX then Err(Overflow)
      else if minted <= MINIMUM_LIQUIDITY then Err(InsufficientInitialLiquidity)
      else Ok(MintOutcome(minted - MINIMUM_LIQUIDITY, minted))
    else if reserveLo == 0 || reserveHi == 0 then Err(ZeroReserve)
    else
      MulBoth(da, MAX_RESERVE, totalShares, U64_MAX);
      MulBoth(db, MAX_RESERVE, totalShares, U64_MAX);
      var productLo: u128 := da * totalShares;
      var productHi: u128 := db * totalShares;
      DivFloor(productLo, reserveLo);
      DivFloor(productHi, reserveHi);
      var minted := Min(productLo / reserveLo, productHi / reserveHi);
      if minted > U64_MAX then Err(Overflow)
      else if minted == 0 then Err(OutputRoundsToZero)
      else if totalShares + minted > U64_MAX then Err(Overflow)
      else Ok(MintOutcome(minted, totalShares + minted))
  }

  function BurnShares(reserveLo: u64, reserveHi: u64, totalShares: u64, shares: u64): Result<BurnOutcome, CurveError> {
    if shares == 0 then Err(ZeroAmount)
    else if shares > totalShares then Err(InsufficientShares)
    else
      MulBoth(reserveLo, U64_MAX, shares, U64_MAX);
      MulBoth(reserveHi, U64_MAX, shares, U64_MAX);
      var productLo: u128 := reserveLo * shares;
      var productHi: u128 := reserveHi * shares;
      DivFloor(productLo, totalShares);
      DivFloor(productHi, totalShares);
      var da := productLo / totalShares;
      var db := productHi / totalShares;
      if da > U64_MAX || db > U64_MAX then Err(Overflow)
      else if da == 0 && db == 0 then Err(OutputRoundsToZero)
      else Ok(BurnOutcome(da, db, totalShares - shares))
  }

  predicate KNonDecreasing(rInOld: u64, rOutOld: u64, rInNew: u64, rOutNew: u64) {
    MulBoth(rInOld, U64_MAX, rOutOld, U64_MAX);
    MulBoth(rInNew, U64_MAX, rOutNew, U64_MAX);
    var before: u128 := rInOld * rOutOld;
    var after: u128 := rInNew * rOutNew;
    after >= before
  }
}
