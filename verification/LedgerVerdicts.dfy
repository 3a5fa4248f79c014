/**
 Exactly when each item of the ledger is accepted, and with which error it is
 refused otherwise, said in terms of the configuration, the tables and the
 curve, not of the steps.
 */
module LedgerVerdicts {
  import opened Basics
  import opened Curve
  import opened CurveTheorems
  import opened Ledger
  import opened LedgerInvariants
  import opened LedgerRuns
  import opened LedgerEffects

  // -------------------------------------------------------------------- swaps

  /** The pool of a pair of different units is the same in either order. */
  lemma PoolOfPair(x: Unit, y: Unit)
    ensures MakePoolId(x, y) == MakePoolId(y, x)
    ensures MakePoolId(x, y) == if x == y then None else Some(PoolPair(Min(x, y), Max(x, y)))
  {
  }

  /** The checks a swap passes before the curve is asked. */
  predicate SwapAdmitted(cfg: Config, s: Tables, o: Output)
    requires o.SwapV0?
  {
    && o.proven && o.unitIn != o.unitOut && PoolPair(Min(o.unitIn, o.unitOut), Max(o.unitIn, o.unitOut)) in s.pools
    && o.unitIn in cfg.units && o.unitOut in cfg.units && o.amountIn >= cfg.units[o.unitIn]
  }

  /** The error of a swap that does not pass them, the first failing check. */
  lemma SwapNotAdmitted(cfg: Config, n: nat, s: Tables, o: Output)
    requires Inv(cfg, n, s) && o.SwapV0?
    ensures var r := SwapStep(cfg, n, s, o).1;
            (r == Err(InvalidProofOfPossession) <==> !o.proven) &&
            (r == Err(IdenticalUnits) <==> o.proven && o.unitIn == o.unitOut) &&
            (o.proven && o.unitIn != o.unitOut ==>
               var id := PoolPair(Min(o.unitIn, o.unitOut), Max(o.unitIn, o.unitOut));
               var known := o.unitIn in cfg.units && o.unitOut in cfg.units;
               (r == Err(NoSuchPool) <==> id !in s.pools) &&
               (r == Err(UnknownUnit) <==> id in s.pools && !known) &&
               (r == Err(BelowMinSwapIn) <==> id in s.pools && known && o.amountIn < cfg.units[o.unitIn]))
    ensures !SwapAdmitted(cfg, s, o) ==> SwapStep(cfg, n, s, o).1.Err?
  {
    hide AmountOut, ConsensusFee, KNonDecreasing, PoolsSound, SharesAddUp, VotesAdmitted, BalancesBounded;
  }

  /** An admitted swap settles exactly when the curve pays, the payout meets
      the minimum, and both the reserve and the recipient's balance stay within
      the cap; each other case has its own error. */
  lemma AdmittedSwapSettlesIff(cfg: Config, n: nat, s: Tables, o: Output)
    requires Inv(cfg, n, s) && o.SwapV0? && SwapAdmitted(cfg, s, o)
    ensures var id: PoolId := PoolPair(Min(o.unitIn, o.unitOut), Max(o.unitIn, o.unitOut));
            var pool, fee := s.pools[id], ConsensusFee(cfg, n, s.votes, id);
            var loIn := o.unitIn < o.unitOut;
            var reserveIn, reserveOut := if loIn then pool.reserveLo else pool.reserveHi, if loIn then pool.reserveHi else pool.reserveLo;
            var held := BalanceHeld(s, BalanceKey(o.recipient, o.unitOut));
            var pay, r := AmountOut(reserveIn, reserveOut, o.amountIn, fee), SwapStep(cfg, n, s, o).1;
            var fits := pay.Ok? && reserveIn + o.amountIn <= MAX_RESERVE && held + pay.value <= MAX_RESERVE;
            (r.Ok? <==> pay.Ok? && pay.value >= o.minOut && fits) &&
            (r.Ok? ==> r.value == map[o.unitIn := o.amountIn]) &&
            (r == Err(Curve(OutputRoundsToZero)) <==> pay == Err(OutputRoundsToZero)) &&
            (r == Err(SlippageExceeded) <==> pay.Ok? && pay.value < o.minOut) &&
            (r == Err(OverReserveCap) <==> o.amountIn > MAX_RESERVE || (pay.Ok? && pay.value >= o.minOut && !fits))
  {
    hide AmountOut, ConsensusFee, KNonDecreasing, SharesAddUp, VotesAdmitted, BalancesBounded;
    var id: PoolId := PoolPair(Min(o.unitIn, o.unitOut), Max(o.unitIn, o.unitOut));
    var pool, fee := s.pools[id], ConsensusFee(cfg, n, s.votes, id);
    var loIn := o.unitIn < o.unitOut;
    var reserveIn, reserveOut := if loIn then pool.reserveLo else pool.reserveHi, if loIn then pool.reserveHi else pool.reserveLo;
    PoolOfPair(o.unitIn, o.unitOut);
    PoolBounds(pool);
    AmountOutVerdict(reserveIn, reserveOut, o.amountIn, fee);
    var pay := AmountOut(reserveIn, reserveOut, o.amountIn, fee);
    if pay.Ok? && reserveIn + o.amountIn <= MAX_RESERVE { SettledKHolds(reserveIn, reserveOut, o.amountIn, fee, pay.value); }
  }

  /** The rows a settled swap leaves carry the reserves, the credit and the
      tweak of the swap. */
  lemma SwapSettles(cfg: Config, n: nat, s: Tables, o: Output)
    requires Inv(cfg, n, s) && o.SwapV0? && SwapStep(cfg, n, s, o).1.Ok?
    ensures SwapAdmitted(cfg, s, o)
    ensures var id: PoolId := PoolPair(Min(o.unitIn, o.unitOut), Max(o.unitIn, o.unitOut));
            var key, a := BalanceKey(o.recipient, o.unitOut), s.pools[id];
            var loIn := o.unitIn < o.unitOut;
            var pay := AmountOut(if loIn then a.reserveLo else a.reserveHi, if loIn then a.reserveHi else a.reserveLo,
                                 o.amountIn, ConsensusFee(cfg, n, s.votes, id));
            var s' := SwapStep(cfg, n, s, o).0;
            id in s'.pools && key in s'.balances && pay.Ok? &&
            s'.balances[key] == Balance(BalanceHeld(s, key) + pay.value, o.tweak) &&
            s'.pools[id].totalShares == a.totalShares &&
            s'.pools[id].reserveLo == (if loIn then a.reserveLo + o.amountIn else a.reserveLo - pay.value) &&
            s'.pools[id].reserveHi == (if loIn then a.reserveHi - pay.value else a.reserveHi + o.amountIn)
  {
    hide AmountOut, ConsensusFee, KNonDecreasing, SharesAddUp, VotesAdmitted, BalancesBounded, PoolsSound;
    PoolOfPair(o.unitIn, o.unitOut);
  }

  // ----------------------------------------------------------------- deposits

  /** Exactly when a deposit is accepted, and each refusal. */
  lemma DepositVerdict(cfg: Config, n: nat, s: Tables, o: Output)
    requires Inv(cfg, n, s) && o.DepositV0?
    ensures var r, a := DepositStep(cfg, s, o).1, PoolOrEmpty(s, o.pool);
            var known := o.pool.lo in cfg.units && o.pool.hi in cfg.units;
            var minted := MintShares(a.reserveLo, a.reserveHi, a.totalShares, o.amountLo, o.amountHi);
            (r == Err(InvalidProofOfPossession) <==> !o.proven) &&
            (r == Err(UnknownUnit) <==> o.proven && !known) &&
            (o.proven && known ==>
               (r.Ok? <==> minted.Ok? && minted.value.toOwner >= o.minShares) &&
               (r == Err(SlippageExceeded) <==> minted.Ok? && minted.value.toOwner < o.minShares) &&
               (r == Err(OverReserveCap) <==> minted == Err(ReserveCapExceeded)) &&
               (forall e :: e != ReserveCapExceeded ==> (r == Err(Curve(e)) <==> minted == Err(e))))
  {
    hide MintShares, SharesIn, VotesAdmitted, BalancesBounded, ValidConfig;
    var a := PoolOrEmpty(s, o.pool);
    var minted := MintShares(a.reserveLo, a.reserveHi, a.totalShares, o.amountLo, o.amountHi);
    MintNeverOverflows(a, o.amountLo, o.amountHi);
    if minted.Ok? {
      MintBounds(a, o.amountLo, o.amountHi);
      MintedPoolIsSound(a, o.pool in s.pools, o.amountLo, o.amountHi, minted.value);
      SharesFitCap(Pool(a.reserveLo + o.amountLo, a.reserveHi + o.amountHi, minted.value.newTotalShares));
      HeldWithinTotal(cfg, n, s, LpKey(o.pool, o.owner));
    }
  }

  /** The row a settled deposit leaves carries its tweak; a withdrawal keeps it. */
  lemma TweaksAreKept(cfg: Config, s: Tables, o: Output, i: Input)
    requires o.DepositV0? && i.WithdrawV0?
    ensures DepositStep(cfg, s, o).1.Ok? ==>
              LpKey(o.pool, o.owner) in DepositStep(cfg, s, o).0.positions &&
              DepositStep(cfg, s, o).0.positions[LpKey(o.pool, o.owner)].tweak == o.tweak
    ensures var key := LpKey(i.pool, i.owner); var s' := WithdrawStep(s, i).0;
            key in s'.positions ==> key in s.positions && s'.positions[key].tweak == s.positions[key].tweak
  {
    hide MintShares, BurnShares;
  }

  // ------------------------------------------------------ claims and voting

  /** A claim is accepted exactly when the row exists, and pays its amount. */
  lemma ClaimVerdict(s: Tables, i: Input)
    requires i.ClaimBalanceV0?
    ensures var key, r := BalanceKey(i.pubkey, i.unit), ClaimStep(s, i).1;
            r == if key in s.balances then Ok(map[i.unit := BalanceHeld(s, key)]) else Err(NoSuchBalance)
  {
  }

  /** Items of a kind this version does not know are refused. */
  lemma UnknownItemsAreRefused(cfg: Config, n: nat, s: Tables, peer: PeerId)
    requires n >= 1 && ValidConfig(cfg)
    ensures !Apply(cfg, n, s, OutputItem(UnknownOutput)).accepted && !Apply(cfg, n, s, InputItem(UnknownInput)).accepted
    ensures !Apply(cfg, n, s, VoteItem(UnknownItem, peer)).accepted
  {
    hide ValidConfig, SwapStep, DepositStep, ClaimStep, WithdrawStep;
  }

  /** A vote is refused exactly when it is outside the band, names no pool, or
      repeats what is recorded; otherwise it is recorded as cast. */
  lemma VoteVerdict(cfg: Config, s: Tables, pool: PoolId, fee: u16, peer: PeerId)
    ensures var key := VoteKey(pool, peer); var (s', r) := VoteStep(cfg, s, FeeVoteV0(pool, fee), peer);
            var inBand, repeated := cfg.minFee <= fee <= cfg.maxFee, key in s.votes && s.votes[key] == fee;
            (r == Err(OutsideBand) <==> !inBand) &&
            (r == Err(VoteNoSuchPool) <==> inBand && pool !in s.pools) &&
            (r == Err(Redundant) <==> inBand && pool in s.pools && repeated) &&
            (r.Ok? <==> inBand && pool in s.pools && !repeated) &&
            (r.Ok? ==> key in s'.votes && s'.votes[key] == fee)
  {
  }

  /** The intent recorded is the fee submitted, when it is admissible at all. */
  lemma IntentVerdict(cfg: Config, s: Tables, pool: PoolId, fee: u16)
    ensures var s' := IntentStep(cfg, s, pool, fee);
            if cfg.minFee <= fee <= cfg.maxFee && pool in s.pools then pool in s'.desired && s'.desired[pool] == fee else s' == s
  {
  }
}
