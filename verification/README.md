# Experimint in Dafny

A model of the hard core of the experimint federation modules, with proofs about
every run of it. `dafny verify dfyconfig.toml` checks the whole project.

The parts, and the modules that hold them:

- **The AMM ledger.** `Curve` is the integer constant-product curve and
  `CurveTheorems` what it promises. `Ledger` gives the effect of each swap,
  deposit, claim, withdrawal and fee vote on the five tables as total functions;
  `AmmServer` is the guardian's module instance, which writes those tables step
  by step, proved to leave exactly what the functions say. `LedgerInvariants`
  and `LedgerRuns` carry the invariants over whole runs: conservation, share
  accounting, coverage, and which errors are unreachable. `LedgerEffects` says
  who an item can reach, and `LedgerVerdicts` exactly when each is accepted.
- **Fee votes.** `Rank` is the order statistics under faults, `FeeVotes` what
  they give for the guardian-voted fee.
- **The price keeper.** `Keeper` is the policy with its binary search,
  `KeeperRuns` what a decided trade respects, that the ledger admits it, and
  that ticks converge from one side.
- **The round transport.** `Mesh` is the exchange protocol with every send and
  receive as a step of its own, `MeshNet` its endpoints, `Codec` the key framing
  and packets, `Driver` the loop of one party, `DriverNet` n loops over a mesh.
- **Recovery and discovery.** `Recovery` is keyset pagination against a table
  that changes between pages, `Discovery` the deposit cursor under misreporting
  guardians, `GapScan` the seed-only deposit scan.
- **Around them.** `CivilDate` is the oracle's timestamp parser, `SwapClient`
  the two-transaction swap run against the ledger.
- `Basics`, `Arith` and `Sums` hold machine-integer types, nonlinear arithmetic
  and sums over maps.

Machine integers are subset types of `int`, and every product is given the type
the source computes it in, so that it fits is part of the proof. A federation of
n peers tolerates f = (n - 1) / 3 faults and its threshold is n - f. A proof of
possession is a flag of the item saying whether its signature verifies. Clocks,
networks and other parties are parameters: the answers of peers, the state of
the database at each request, the scheduling of steps, the oracle price.

Where the code and its comments differ, the model follows the code:

- The comment on `consensus_fee_for` says the selected vote is bracketed by
  honest votes on both sides. The lower side always holds; the upper side holds
  if and only if the votes exceed the threshold by at least f or the band is a
  single fee (`UpperBracketIffSpareVotes`).
- The comment in `dev_bps` says its saturating product is reached only at
  deviations of about 10^34 basis points. `SaturationDistortsDeviation` reaches
  it at an accepted price with a true deviation of just under -10000 basis
  points. The direction of the trade is unaffected, but the reported magnitude
  may grow under a helpful trade; `DeviationShrinksIff` says exactly when.
- The comment on `largest_non_crossing` says roughly 64 iterations; at most 59
  are made.
- The comment on `crosses_target` claims monotonicity without a bound on the
  price. For buys it holds on every pool if and only if 2^58 - 1 times the price
  fits 128 bits (`MonotoneIffPriceFits`). `decide` searches only where the
  product of its own pool fits (`PriceableFits`, `CrossingIsMonotone`), so a
  failing pool and price reach the search only from a direct caller of the
  public `largest_non_crossing`.

## Model

| member | source | states |
|---|---|---|
| Curve.ISqrt | modules/amm/fedimint-amm-common/src/math.rs:612-631 | the result is the integer square root: its square is at most the input and the next square exceeds it |
| Curve.AmountOut | modules/amm/fedimint-amm-common/src/math.rs:50-92 | a payout is at least 1 and strictly below the output reserve; every intermediate is proved to fit 128 bits |
| CurveTheorems.PayoutIsLargest | modules/amm/fedimint-amm-common/src/math.rs:50-92 | the payout is exactly the largest amount for which the fee-adjusted reserve product does not fall, and the swap is refused as rounding to zero exactly when that amount is 0; within the caps no other refusal occurs, so the drain and overflow branches are dead |
| CurveTheorems.AmountOutVerdict | modules/amm/fedimint-amm-common/src/math.rs:50-92 | for all inputs the exact condition of each refusal; the drain and overflow errors never occur |
| CurveTheorems.PayoutIsMonotone | modules/amm/fedimint-amm-common/src/math.rs:50-92 | a larger input never buys less, and stays executable up to the cap |
| CurveTheorems.SwapKeepsK | modules/amm/fedimint-amm-common/src/math.rs:50-92 | a settled swap never lowers the reserve product, and raises it strictly when a fee is charged |
| CurveTheorems.SplitNeverPaysMore | modules/amm/fedimint-amm-common/src/math.rs:50-92 | splitting a same-direction trade in two at one fee never pays more than the single trade, floors included; the single trade is refused only for its size |
| CurveTheorems.RoundTripLoses | modules/amm/fedimint-amm-common/src/math.rs:540-552 | swapping the proceeds straight back never returns more than was put in, strictly less if either leg has a fee |
| CurveTheorems.NoSwapSequenceExtracts | modules/amm/fedimint-amm-common/src/math.rs:50-92 | no sequence of swaps in either direction at any fees leaves both reserves at or below their start unless they are unchanged |
| CurveTheorems.MintIsLargestFair | modules/amm/fedimint-amm-common/src/math.rs:141-157 | a later deposit mints the largest share count that both of its legs justify at the current ratio |
| CurveTheorems.MintVerdict | modules/amm/fedimint-amm-common/src/math.rs:112-158 | for all inputs the exact condition of each refusal of a mint other than overflow |
| CurveTheorems.MintKeepsShareValue | modules/amm/fedimint-amm-common/src/math.rs:141-157 | minting never lowers the reserve product per squared share |
| CurveTheorems.FirstMintIsCovered | modules/amm/fedimint-amm-common/src/math.rs:131-140 | creating a pool mints exactly the integer geometric mean, all but the minimum liquidity to the depositor |
| CurveTheorems.BurnIsFloored | modules/amm/fedimint-amm-common/src/math.rs:169-206 | each payout is exactly the floored pro-rata part of its reserve and never exceeds it |
| CurveTheorems.BurnVerdict | modules/amm/fedimint-amm-common/src/math.rs:169-206 | a burn succeeds if and only if it is between 1 and the total and one side pays at least 1; each refusal has its exact condition and none is overflow |
| CurveTheorems.BurnKeepsShareValue | modules/amm/fedimint-amm-common/src/math.rs:169-206 | burning never lowers the reserve product per squared share of the shares that remain |
| CurveTheorems.DepositWithdrawNeverProfits | modules/amm/fedimint-amm-common/src/math.rs:555-598 | burning at once what a deposit minted returns at most the deposit on each side, on an existing and on a new pool |
| AmmServer.Validate | modules/amm/fedimint-amm-common/src/config.rs:122-151 | the set-up check passes exactly the configurations that satisfy the validity rule; the empty, inverted-band and zero-minimum errors have their exact condition |
| Ledger.ClampFeeToBand | modules/amm/fedimint-amm-common/src/config.rs:164-177 | the clamped fee is in the band, and a fee already in the band is untouched |
| Ledger.ConsensusFee | modules/amm/fedimint-amm-server/src/lib.rs:698-710 | the fee charged lies in the configured band whatever was voted or configured |
| FeeVotes.ConfiguredFeeBelowThreshold | modules/amm/fedimint-amm-common/src/config.rs:155-177 | below a threshold of votes the fee is the pool's override if it has one and the default otherwise, forced between the band limits |
| FeeVotes.VotesAreOnePerVoter | modules/amm/fedimint-amm-server/src/lib.rs:698-705 | the votes aggregated for a pool are one per peer that has one recorded |
| Ledger.QuoteSwap | modules/amm/fedimint-amm-server/src/lib.rs:378-440 | an accepted quote pays at least 1, less than the output reserve, at least the caller's minimum, and leaves the input reserve within its cap |
| LedgerInvariants.SwapKeepsInv | modules/amm/fedimint-amm-server/src/lib.rs:985-1129 | a settled swap keeps every invariant of the tables and dilutes no pool |
| LedgerInvariants.SwapConserves | modules/amm/fedimint-amm-server/src/lib.rs:985-1129 | a settled swap changes what the module owes, unit by unit, by exactly what it took in |
| LedgerInvariants.DepositKeepsInv | modules/amm/fedimint-amm-server/src/lib.rs:1130-1232 | a settled deposit keeps every invariant, on a new pool and on an existing one, and dilutes no share |
| LedgerInvariants.DepositConserves | modules/amm/fedimint-amm-server/src/lib.rs:1130-1232 | a settled deposit changes what is owed by exactly both legs |
| LedgerInvariants.ClaimKeeps | modules/amm/fedimint-amm-server/src/lib.rs:845-867 | a settled claim keeps the invariants and lowers what is owed by exactly what it pays |
| LedgerInvariants.WithdrawKeepsInv | modules/amm/fedimint-amm-server/src/lib.rs:868-959 | a settled withdrawal keeps the invariants and dilutes no remaining share |
| LedgerInvariants.WithdrawConserves | modules/amm/fedimint-amm-server/src/lib.rs:868-959 | a settled withdrawal lowers what is owed by exactly what it pays |
| LedgerRuns.ItemKeeps | modules/amm/fedimint-amm-server/src/lib.rs:790-1235 | every output, input, vote and intent keeps the invariant, dilutes no pool and balances in every unit; a refused one leaves all five tables as they were |
| LedgerRuns.RunKeeps | modules/amm/fedimint-amm-server/src/lib.rs:790-1235 | the same over every run from any sound state |
| LedgerRuns.Conservation | modules/amm/fedimint-amm-server/src/lib.rs:838-1235 | in every reachable state and every unit, value taken in minus value paid out equals reserves plus unclaimed balances; so never more is paid than came in |
| LedgerRuns.ReachablePoolsAreCovered | modules/amm/fedimint-amm-server/src/lib.rs:868-1232 | every reachable pool has reserve product at least its squared total shares, total shares equal to the positions plus the minimum liquidity, and at most 2^58 of them |
| LedgerRuns.BackingPerShareNeverFalls | modules/amm/fedimint-amm-server/src/lib.rs:838-1235 | between any two points of a run the reserve product per squared share never falls |
| LedgerRuns.AuditConversionsAreTotal | modules/amm/fedimint-amm-server/src/lib.rs:1273-1304 | every reserve and balance the audit converts to a signed 64-bit number fits it, in every reachable state |
| LedgerRuns.QuoteIsSettlement | modules/amm/fedimint-amm-server/src/lib.rs:985-1129 | a swap settles if and only if the quote on the same state stands, the proof of possession holds, the minimum is met and the recipient's balance stays within the cap; it then settles at exactly the quoted amount and reserves |
| LedgerRuns.SettledKHolds | modules/amm/fedimint-amm-common/src/math.rs:208-214 | the product backstop of settlement never fires |
| CurveTheorems.BackstopIsFeeless | modules/amm/fedimint-amm-common/src/math.rs:208-214 | the product backstop accepts exactly the payouts a trade without fee may make |
| LedgerRuns.SwapRefusals | modules/amm/fedimint-amm-server/src/lib.rs:985-1129 | the only errors a swap can meet on a reachable state; the product, zero-reserve, drain, fee and overflow errors are unreachable |
| LedgerVerdicts.PoolOfPair | modules/amm/fedimint-amm-common/src/pool_id.rs:35-42 | two different units name one pool in either order, smaller unit first; equal units name none |
| LedgerVerdicts.SwapNotAdmitted | modules/amm/fedimint-amm-server/src/lib.rs:378-404 | the exact condition of each refusal before the curve: proof, identical units, missing pool, unlisted unit, and an input below the unit's minimum |
| LedgerVerdicts.AdmittedSwapSettlesIff | modules/amm/fedimint-amm-server/src/lib.rs:378-1129 | an admitted swap settles if and only if the curve pays at the voted fee, the payout meets the minimum, and the input reserve and the recipient's balance stay within the cap; each other refusal has its exact condition |
| LedgerVerdicts.SwapSettles | modules/amm/fedimint-amm-server/src/lib.rs:1060-1129 | a settled swap adds the input to one reserve, takes the payout from the other, and credits it to the recipient's row under the swap's tweak |
| LedgerRuns.MintNeverOverflows | modules/amm/fedimint-amm-common/src/math.rs:112-158 | minting on a reachable or new pool never overflows and never meets a zero reserve |
| LedgerRuns.DepositRefusals | modules/amm/fedimint-amm-server/src/lib.rs:1130-1232 | the only errors a deposit can meet; share overflow and zero reserve are unreachable |
| LedgerVerdicts.DepositVerdict | modules/amm/fedimint-amm-server/src/lib.rs:1130-1192 | a deposit is accepted if and only if its proof holds, both units are listed, the curve mints, and the minted shares meet the minimum; each refusal has its exact condition |
| LedgerVerdicts.TweaksAreKept | modules/amm/fedimint-amm-server/src/lib.rs:868-1222 | a settled deposit stores its tweak and a withdrawal keeps the stored one |
| LedgerRuns.EveryPositionIsRedeemable | modules/amm/fedimint-amm-server/src/lib.rs:868-959 | a holder may burn any part of a position, refused only by the caller's own payout bounds, and receives at least the burned count on one side |
| LedgerRuns.WithdrawRefusals | modules/amm/fedimint-amm-server/src/lib.rs:868-959 | for each error of a withdrawal the exact condition under which it is returned; rounding to zero and overflow are unreachable |
| LedgerVerdicts.ClaimVerdict | modules/amm/fedimint-amm-server/src/lib.rs:845-867 | a claim pays the row's amount if the row exists and is refused otherwise |
| LedgerVerdicts.VoteVerdict | modules/amm/fedimint-amm-server/src/lib.rs:790-836 | a vote is refused exactly when it is outside the band, names no pool or repeats the recorded one, and is otherwise recorded as cast |
| LedgerVerdicts.IntentVerdict | modules/amm/fedimint-amm-server/src/lib.rs:1373-1419 | the intent stored is the fee submitted, exactly when it is in the band and the pool exists |
| LedgerVerdicts.UnknownItemsAreRefused | modules/amm/fedimint-amm-server/src/lib.rs:831-1234 | outputs, inputs and votes of an unknown kind are refused |
| LedgerEffects.OnlyItsRowsMove | modules/amm/fedimint-amm-server/src/lib.rs:790-1235 | an item writes at most one row of each of the five tables: its own pool, position, balance, vote and intent |
| LedgerEffects.DepositSettles | modules/amm/fedimint-amm-server/src/lib.rs:1130-1232 | a settled deposit adds both legs to the pool and credits its owner with at least the minimum asked, at most the fair count; a new pool keeps the minimum liquidity |
| LedgerEffects.WithdrawSettles | modules/amm/fedimint-amm-server/src/lib.rs:868-959 | a settled withdrawal removes exactly the burned shares from owner and pool, pays the floored pro-rata parts within the caller's bounds, and drops an emptied position |
| LedgerEffects.DepositThenWithdrawNeverProfits | modules/amm/fedimint-amm-server/src/lib.rs:868-1232 | through the ledger, withdrawing at once what a deposit minted pays at most the deposit on each side |
| LedgerEffects.BalanceFallsOnlyByItsClaim | modules/amm/fedimint-amm-server/src/lib.rs:845-867 | an accepted claim takes the whole balance row of its key, and nothing else takes from a row |
| LedgerEffects.PositionFallsOnlyByItsWithdrawal | modules/amm/fedimint-amm-server/src/lib.rs:868-959 | only an accepted withdrawal by its own key takes from a position |
| LedgerEffects.OnlyTheSignerLoses | modules/amm/fedimint-amm-server/src/lib.rs:838-962 | a holding falls only in an accepted input whose required signer is its owner |
| LedgerEffects.HoldingsAreKept | modules/amm/fedimint-amm-server/src/lib.rs:838-1235 | over any run in which no input names them, a balance and a position never fall |
| AmmServer.Amm.constructor | modules/amm/fedimint-amm-server/src/lib.rs:663-669 | a new module instance has five empty tables, which satisfy the invariant |
| AmmServer.Amm.ProcessConsensusItem | modules/amm/fedimint-amm-server/src/lib.rs:790-836 | leaves exactly the tables and answer of the vote step, keeps the invariant, and a refused vote changes nothing although it is written before the redundancy check |
| AmmServer.Amm.ProcessInput | modules/amm/fedimint-amm-server/src/lib.rs:838-962 | leaves exactly the tables and payout of the input step, names the key that must sign, keeps the invariant, and changes nothing on refusal |
| AmmServer.Amm.Claim | modules/amm/fedimint-amm-server/src/lib.rs:845-867 | removes the row and pays its amount to the named key, or reports that there is none |
| AmmServer.Amm.Withdraw | modules/amm/fedimint-amm-server/src/lib.rs:868-959 | the sequence of record updates amounts to the withdrawal step, and the sum of both legs never overflows |
| AmmServer.Amm.ProcessOutput | modules/amm/fedimint-amm-server/src/lib.rs:964-1235 | leaves exactly the tables and amounts of the output step, keeps the invariant, and changes nothing on refusal |
| AmmServer.Amm.Swap | modules/amm/fedimint-amm-server/src/lib.rs:985-1129 | the sequence of record updates amounts to the swap step, with both orientations |
| AmmServer.Amm.Deposit | modules/amm/fedimint-amm-server/src/lib.rs:1130-1232 | the sequence of record updates amounts to the deposit step; the fallible step after the writes never fails |
| AmmServer.Amm.SubmitFeeVote | modules/amm/fedimint-amm-server/src/lib.rs:1373-1419 | the intent is stored exactly when it is in the band and the pool exists |
| AmmServer.Amm.ConsensusProposal | modules/amm/fedimint-amm-server/src/lib.rs:739-770 | proposes a vote for exactly the existing pools whose recorded vote is not the guardian's intent, each pool once |
| AmmServer.ProposalsLandAndDrain | modules/amm/fedimint-amm-server/src/lib.rs:739-836 | every proposal is accepted when it is ordered after those before it, and once all are ordered there is nothing left to propose and every intent is the recorded vote |
| Rank.RankBounds | modules/amm/fedimint-amm-server/src/lib.rs:698-710 | at ascending rank k at least k+1 elements lie at or below and at least the rest at or above |
| Rank.RankIsTight | modules/amm/fedimint-amm-server/src/lib.rs:698-710 | beyond the element at rank k there are fewer, so the two bounds determine it |
| FeeVotes.EffectiveFeeIsBracketed | modules/amm/fedimint-amm-server/src/lib.rs:671-710 | with at most f faulty guardians: always in the band; the clamped configured fee below a threshold of votes; otherwise at least some honest vote, and at most some honest vote once votes minus threshold reach f |
| FeeVotes.FaultyCanLiftFee | modules/amm/fedimint-amm-server/src/lib.rs:671-710 | with fewer spare votes than possible faults there are votes for which the fee exceeds every honest vote |
| FeeVotes.UpperBracketIffSpareVotes | modules/amm/fedimint-amm-server/src/lib.rs:671-710 | the upper honest bracket holds for all votes and all fault sets if and only if votes minus threshold is at least f, or the band is a single fee |
| Keeper.CrossingAt | bin/amm-price-keeper/src/policy.rs:380-415 | for a settled size, crossing is exactly the cross-multiplied price comparison on the post-trade reserves, whenever the price times all but one unit of the reserve fits 128 bits |
| Keeper.CrossingIsMonotone | bin/amm-price-keeper/src/policy.rs:380-415 | once a size crosses, every larger size does, both error classes included, for every such pool and price |
| Keeper.MonotoneIffPriceFits | bin/amm-price-keeper/src/policy.rs:380-415 | on every pool the predicate is monotone for sells, and for buys if and only if 2^58 - 1 times the price fits 128 bits |
| Keeper.PriceableFits | bin/amm-price-keeper/src/policy.rs:207-308 | whenever the deviation exists, the product of this pool and price fits on both sides, so the policy searches only where the predicate is monotone |
| Keeper.HugePriceBreaksMonotonicity | bin/amm-price-keeper/src/policy.rs:380-415 | for every price beyond that bound, a pool on which size 1 crosses and size 2 does not |
| Keeper.LargestNonCrossing | bin/amm-price-keeper/src/policy.rs:344-365 | the binary search returns the largest non-crossing size, or 0, in at most 59 probes |
| Keeper.Decide | bin/amm-price-keeper/src/policy.rs:226-308 | the decision is, for every input, that of the specification whose size is the largest non-crossing one under the remaining clamps |
| KeeperRuns.HoldsBeforeSizing | bin/amm-price-keeper/src/policy.rs:226-264 | for all inputs the exact condition of holding for an empty, one-sided or unpriceable pool, a band below the fee, and a deviation inside the band by cross-multiplication |
| KeeperRuns.DecidesExactly | bin/amm-price-keeper/src/policy.rs:256-308 | outside the band the keeper trades a size, on the side of the cross-product, if and only if it is the largest within reserve cap, oracle, dollar cap and floor, is at least the dust threshold and settles; each other hold has its exact condition |
| KeeperRuns.DeviationSign | bin/amm-price-keeper/src/policy.rs:207-222 | for accepted prices the deviation exists, has the sign of the exact comparison, and is its truncated saturated quotient |
| KeeperRuns.TradeRespectsLimits | bin/amm-price-keeper/src/policy.rs:226-335 | a decided trade is executable, does not cross, meets the dust threshold, keeps the inventory floor and, when selling, costs at most the dollar cap at the oracle price |
| KeeperRuns.TradeIsLargest | bin/amm-price-keeper/src/policy.rs:226-335 | any larger size would overfill the reserve, pass the oracle, exceed the dollar cap or break the floor |
| KeeperRuns.TradeApproaches | bin/amm-price-keeper/src/policy.rs:226-442 | one trade moves the pool towards the oracle without passing it and lands on exactly the predicted reserves |
| KeeperRuns.PredictedReserves | bin/amm-price-keeper/src/policy.rs:423-442 | the predicted reserves exist exactly for a unit of the pool and a size the curve settles, and add the input and take the payout |
| KeeperRuns.KeeperNeverOscillates | bin/amm-price-keeper/src/policy.rs:226-308 | over any run of ticks at one oracle price the exact comparison never flips, sells and buys never both occur, and the number of trades is bounded by the growth of the input reserve |
| KeeperRuns.TradeShrinksDeviation | bin/amm-price-keeper/src/policy.rs:207-222 | one trade never increases the reported deviation while the scaled difference fits a signed 128-bit number before it |
| KeeperRuns.DeviationShrinksIff | bin/amm-price-keeper/src/policy.rs:207-222 | for every trade: it does not increase the reported deviation if and only if the scaled difference fits before it or the clipped difference it leaves is below the next multiple of the oracle side it leaves; comparing the two clipped fractions decides the direction |
| KeeperRuns.SaturatedDeviationNeverShrinks | bin/amm-price-keeper/src/policy.rs:207-222 | while the scaled difference saturates before and after a trade, the reported deviation never shrinks |
| KeeperRuns.SaturationDistortsDeviation | bin/amm-price-keeper/src/policy.rs:207-222 | a concrete pool and price, saturating before and after, where a helpful trade doubles the reported deviation |
| KeeperRuns.MixedSaturationGoesEitherWay | bin/amm-price-keeper/src/policy.rs:207-222 | saturating before and not after, one trade raises the report from 5902 to 9999 basis points and a larger one lowers it to 1326 |
| KeeperRuns.KeeperTradeSettles | bin/amm-price-keeper/src/policy.rs:226-442 | a trade decided on a snapshot is admitted by the server's quote on that state and settles on the reserves the keeper predicts |
| Mesh.RoundsAreAligned | crypto/threshold-ecdsa/src/transport/mesh.rs:85-119 | under every interleaving, slot j of party i's r-th completed exchange holds party j's r-th payload |
| Mesh.SkewAndBacklogAreBounded | crypto/threshold-ecdsa/src/transport/mesh.rs:85-119 | completed rounds never differ by more than one and no channel holds more than two payloads |
| Mesh.NoDeadlock | crypto/threshold-ecdsa/src/transport/mesh.rs:85-119 | no reachable state in which every party is mid-exchange is stuck |
| Mesh.ProgressUntilDone | crypto/threshold-ecdsa/src/transport/mesh.rs:85-119 | when no party can move, every party has completed all its rounds |
| Mesh.AllRoundsComplete | crypto/threshold-ecdsa/src/transport/mesh.rs:85-119 | whatever the scheduler does, n parties wanting R rounds make at most n*R*(2n+3) moves, can always make another before that, and have then all finished |
| MeshNet.InMemoryMesh | crypto/threshold-ecdsa/src/transport/mesh.rs:37-73 | what i sends to j is what j receives from i, no channel is shared by two pairs, and no party has one to itself |
| MeshNet.InMemoryNet.constructor | crypto/threshold-ecdsa/src/transport/mesh.rs:37-73 | a fresh mesh has idle parties and empty channels and satisfies the protocol invariant |
| MeshNet.InMemoryNet.Begin | crypto/threshold-ecdsa/src/transport/mesh.rs:85-97 | starting an exchange fixes the payload and keeps the invariant |
| MeshNet.InMemoryNet.Advance | crypto/threshold-ecdsa/src/transport/mesh.rs:89-118 | one iteration of the send or receive loop is exactly one protocol step; it waits exactly when the next channel is empty |
| Codec.BeRoundTrip | crypto/threshold-ecdsa/src/transport/codec.rs:117-126 | a number that fits a fixed-width big-endian field is recovered from it |
| Codec.BuildInfo | crypto/threshold-ecdsa/src/transport/codec.rs:110-126 | appending field by field yields the framing, and a domain of 2^32 bytes or more is refused |
| Codec.InfoReads | crypto/threshold-ecdsa/src/transport/codec.rs:110-126 | the length, domain, round, sender and recipient stand in this order and each reads back |
| Codec.InfoIsInjective | crypto/threshold-ecdsa/src/transport/codec.rs:110-126 | equal key-derivation info means equal domain, round, sender and recipient |
| Codec.BoxIsBound | crypto/threshold-ecdsa/src/transport/codec.rs:219-257 | an ideal box opens for exactly the domain, round, sender and recipient it was sealed for |
| Codec.ForeignBoxFailsTheRound | crypto/threshold-ecdsa/src/transport/codec.rs:219-257 | a packet whose box for us was sealed under any other framing fails to open, rather than opening without it |
| Codec.SealRound | crypto/threshold-ecdsa/src/transport/codec.rs:170-209 | one box per recipient, refusing exactly when a recipient has no key or the domain is too long |
| Codec.OpenUndoesSeal | crypto/threshold-ecdsa/src/transport/codec.rs:170-257 | opening a sealed round returns its broadcast and the message addressed to us |
| Driver.DriverLoop.OnSend | crypto/threshold-ecdsa/src/transport/driver.rs:37-42 | a sent message replaces the buffered broadcast or the buffered message of its recipient |
| Driver.DriverLoop.OnProceed | crypto/threshold-ecdsa/src/transport/driver.rs:32-60 | one pass of the loop per machine answer; a boundary is crossed only when a message is wanted and none is queued |
| Driver.DriverLoop.SealBoundary | crypto/threshold-ecdsa/src/transport/driver.rs:53-60 | the buffers are sealed for this round and cleared, and whether anything was sent is remembered |
| Driver.DriverLoop.Absorb | crypto/threshold-ecdsa/src/transport/driver.rs:61-99 | queues in party order what the payloads hold for us, numbered consecutively, and fails exactly when one does not open or the round moved nothing |
| Driver.DriverLoop.Enqueue | crypto/threshold-ecdsa/src/transport/driver.rs:72-91 | the broadcast is queued before the direct message, each with the next number |
| Driver.NothingLostIffNoRepeats | crypto/threshold-ecdsa/src/transport/driver.rs:37-42 | everything addressed to a party between boundaries is delivered exactly once if and only if at most one broadcast and one direct message were sent to it |
| Driver.LastEmitSurvives | crypto/threshold-ecdsa/src/transport/driver.rs:37-42 | of several broadcasts, or several messages to one party, the last before the boundary is the one buffered |
| Driver.SentIffEmitted | crypto/threshold-ecdsa/src/transport/driver.rs:54 | a round counts as sending something exactly when the machine sent anything, broadcast or direct |
| DriverNet.DriversDeliverExactly | crypto/threshold-ecdsa/src/transport/driver.rs:32-102 | for n drivers over the mesh and any machines and scheduling, the r-th queue of a party is exactly what the others buffered for it at their own r-th boundary |
| DriverNet.BoxesAreBoundInEveryRun | crypto/threshold-ecdsa/src/transport/codec.rs:110-257 | in every run, what an exchange's r-th round holds from j is what j sealed at its own r-th boundary, and a box in it opens under that domain, round, sender and recipient and under no other |
| DriverNet.MachinesConsumeInOrder | crypto/threshold-ecdsa/src/transport/driver.rs:43-52 | no driver ever fails to open a box, and a machine has been handed exactly an initial part of everything queued, in order, and all of it before the next exchange |
| DriverNet.NumbersRunOn | crypto/threshold-ecdsa/src/transport/driver.rs:72-91 | the messages queued at a party are numbered 0, 1, 2 and so on over all its exchanges |
| DriverNet.GivesUpOnlyInSilence | crypto/threshold-ecdsa/src/transport/driver.rs:92-97 | a driver gives up for want of progress exactly when, in its last exchange, its machine had sent nothing and nothing arrived |
| DriverNet.ExactlyOnceIffNoRepeats | crypto/threshold-ecdsa/src/transport/driver.rs:32-102 | a party receives from another in a round precisely what was addressed to it, exactly once, if and only if nothing was repeated between boundaries |
| DriverNet.DriversProgress | crypto/threshold-ecdsa/src/transport/driver.rs:32-102 | while some party is short of its rounds and none stopped before completing them, some party can make a move that changes its state, and a sealable boundary starts the next exchange |
| Recovery.PageLimit | modules/amm/fedimint-amm-server/src/lib.rs:448-452 | the page size is the requested one forced between 1 and 500, and 500 when none is requested |
| Recovery.ZeroSuffixIsSuccessor | modules/amm/fedimint-amm-server/src/lib.rs:466-520 | appending a zero byte to a key gives its immediate successor in byte order |
| Recovery.RangeIsTheRestOfTheTable | modules/amm/fedimint-amm-server/src/lib.rs:508-520 | without a cursor the range is exactly the table, and whatever bytes a cursor holds it is exactly the rows of the table after it |
| Recovery.FindByRange | modules/amm/fedimint-amm-server/src/lib.rs:611-616 | reads the first rows of a range in key order, all of them if they fit |
| Recovery.RecoveryPage | modules/amm/fedimint-amm-server/src/lib.rs:584-644 | a page is the next rows and the key to resume after, exactly when more remain; each refusal has its exact condition |
| Recovery.PageExtends | modules/amm/fedimint-amm-server/src/lib.rs:584-644 | after one more page of a changed table, keys still increase strictly and nothing present throughout was skipped |
| Recovery.ForEachRecoveryEntry | modules/amm/fedimint-amm-client/src/api.rs:101-151 | for any changes between requests: strictly increasing keys, no key twice, every row present throughout visited, never outside the table; an error only from a failed request or a corrupt row |
| Recovery.RecoverStaticTable | modules/amm/fedimint-amm-client/src/api.rs:101-151 | on an unchanging table the loop ends within one request more than there are full pages and returns exactly the table in key order |
| Discovery.SinceMeetsContract | modules/usdt/fedimint-usdt-server/src/scan.rs:104-117 | a guardian's answer holds exactly its oldest entries above the height, everything up to the mark it reports, and reports less than its progress only when full and the next block has an entry |
| Discovery.PagePeerCandidates | modules/usdt/fedimint-usdt-client/src/lib.rs:366-396 | paging one peer makes between 1 and 32 requests and returns what the page-by-page specification says |
| Discovery.PagingServes | modules/usdt/fedimint-usdt-client/src/lib.rs:366-396 | if the peer keeps the page contract, everything up to the returned mark was served |
| Discovery.PagingKeepsProgress | modules/usdt/fedimint-usdt-client/src/lib.rs:366-396 | paging only adds to what it has, a failed request ends it at the last mark, and a peer is passed over exactly when its first request fails |
| Discovery.PagingCatchesUp | modules/usdt/fedimint-usdt-client/src/lib.rs:347-396 | against a log that answers through its page rule, with at most c entries per block, a backlog of up to 32 * (513 - c) entries is paged to the log's own progress and served in full |
| Discovery.SafeCursorIsHighest | modules/usdt/fedimint-usdt-client/src/lib.rs:330-334 | the safe cursor exists exactly when more than f answered, and is the highest height that more than f marks reach |
| Discovery.RoundCursorIsHighest | modules/usdt/fedimint-usdt-client/src/lib.rs:1144-1150 | the cursor of a round is the old one, or as high as more than f peers reach, whoever does not answer |
| Discovery.CursorIsHonestlyServed | modules/usdt/fedimint-usdt-client/src/lib.rs:1116-1181 | the cursor of a round never goes down, and if it rises some non-faulty guardian served everything up to it |
| Discovery.NothingBelowTheCursorIsMissed | modules/usdt/fedimint-usdt-client/src/lib.rs:1116-1181 | over any rounds, each with its own at most f misreporting guardians, every height at or below the cursor was, in one round, fully served by one non-faulty guardian; the cursor never falls |
| Discovery.EveryHeldDepositIsReported | modules/usdt/fedimint-usdt-client/src/lib.rs:1116-1181 | hence every transfer to a held account at or below the cursor was reported to the client in some round |
| Discovery.DiscoveryClient.DiscoverDeposits | modules/usdt/fedimint-usdt-client/src/lib.rs:1116-1181 | one round stores the safe cursor and reports each distinct candidate that pays one of our accounts, and no other |
| Discovery.PageEveryPeer | modules/usdt/fedimint-usdt-client/src/lib.rs:1121-1144 | collects the marks of the peers that answered, in order, and the union of their candidates |
| Discovery.MatchingCandidates | modules/usdt/fedimint-usdt-client/src/lib.rs:1151-1166 | keeps exactly the distinct candidates paying a held account |
| GapScan.ProbeIndex | modules/usdt/fedimint-usdt-client/src/lib.rs:912-977 | both keys of an index are probed up to the first failed request; credited ones are recovered and totalled, uncredited ones kept if asked, each with its claim key |
| GapScan.ProbedExactly | modules/usdt/fedimint-usdt-client/src/lib.rs:912-926 | from the two probes of an index alone: the ground key is asked, and the legacy key only if the tweak is nonzero and the first was answered; the index fails exactly when an asked request does |
| GapScan.HitExactly | modules/usdt/fedimint-usdt-client/src/lib.rs:971-979 | an index is a hit exactly when either key asked is credited |
| GapScan.StopIsExact | modules/usdt/fedimint-usdt-client/src/lib.rs:910-990 | the scan stops at the first index preceded by a full gap of uncredited indices |
| GapScan.DepositClient.RecoverDepositsScan | modules/usdt/fedimint-usdt-client/src/lib.rs:892-1006 | with finitely many credited indices the scan ends; it fails exactly when a request fails at an index the gap rule admits, keeping the keys stored so far; otherwise it has recovered exactly the credited accounts within the gap rule, stored their keys and summed credited and claimable; the next-index counter never falls and ends just above the last recovered index or where it was |
| GapScan.RecoveredExactly | modules/usdt/fedimint-usdt-client/src/lib.rs:892-1006 | the recovered accounts, and those kept for checking, said from the fields of the probes: at an index no full gap precedes, under the ground key or under a different legacy key |
| CivilDate.ClosedFormCounts | bin/amm-price-keeper/src/oracle.rs:264-287 | for every integer year and every month and day the closed form equals the count of days by year and month lengths |
| CivilDate.ParsingIsMonotone | bin/amm-price-keeper/src/oracle.rs:207-259 | accepted timestamps are ordered as their fields; the only tie is a leap second with the second after it |
| CivilDate.TailForms | bin/amm-price-keeper/src/oracle.rs:244-256 | the accepted tails are Z or z, or a dot, at least one digit and the zone |
| CivilDate.LeapSecondIsNextSecond | bin/amm-price-keeper/src/oracle.rs:239-243 | second 60 reads as the second after second 59 |
| CivilDate.ParseUndoesRender | bin/amm-price-keeper/src/oracle.rs:207-259 | every written calendar date and time of day, with an accepted tail, parses to its count of days and seconds |
| CivilDate.AcceptedIsRendered | bin/amm-price-keeper/src/oracle.rs:207-259 | nothing else is accepted: an accepted string is the written form of a real date and time and an accepted tail |
| SwapClient.SwapStateMachine.Fire | modules/amm/fedimint-amm-client/src/swap.rs:161-247 | each transition yields the next state and rewrites the outcome in the same step |
| SwapClient.OneTransitionPerLiveState | modules/amm/fedimint-amm-client/src/swap.rs:161-247 | exactly one transition out of every live state and none out of a terminal one; an event fits exactly the state awaiting it |
| SwapClient.EnteredOnlyBy | modules/amm/fedimint-amm-client/src/swap.rs:161-464 | which events enter each state: terminal ones only by their own verdict, a claim only after the first transaction or a back-off, and every failure backs off with one more attempt |
| SwapClient.SwapCredits | modules/amm/fedimint-amm-server/src/lib.rs:985-1129 | an accepted swap adds at least its minimum to the recipient's balance |
| SwapClient.SwapEndsOnlyWithItsBalanceClaimed | modules/amm/fedimint-amm-client/src/swap.rs:161-464 | in every run against the ledger, whoever else acts: an accepted swap never ends rejected, its attempts are the failed hand-overs and refusals of the second transaction it has heard of, it is done only after accepted claims paid at least what was credited, the minimum and the recorded outcome, and until a claim lands the credit stands |
| SwapClient.OutcomeIsWhatWasHandedOver | modules/amm/fedimint-amm-client/src/swap.rs:172-464 | in every run the outcome row is the rejection when the first transaction was rejected, and otherwise the balance of the last read that was handed over for claiming, which exists whenever the second is out or accepted |
| SwapClient.AcceptedSwapCanFinish | modules/amm/fedimint-amm-client/src/swap.rs:161-464 | from any point of any run an accepted swap can be brought to Done in at most 8 steps: it is never stuck |

## Left out

- Cryptography: signatures, key derivation, ECDH and authenticated encryption. A box is ideal and keyed by its framing; a signature check is a flag.
- Consensus encodings, JSON, the database engine and its rollback, the async runtime. Serialization failures of round messages are not modelled.
- AmmServer.Validate: of the errors for fee overrides, which one is returned when several rules are broken follows the order of the map and is not fixed.
- Votes recorded for a peer number outside the federation; the ordering layer attributes every vote to one of the n peers.
- The price impact figure of a quote, the pool and vote listing endpoints, and the sums the audit adds up over all pools.
- Keeper.Decide: hold reasons carry the deviation or the amount, not the other figures that are only logged.
- Fetching the oracle and converting its floating-point price; the daemon, its command line and its logging.
- Mesh: endpoints that are dropped while others wait, and the errors that reports. Every party stays alive.
- Driver: the state machine itself. Its answers are arbitrary, its rejection of a message is a halt, and the 64-bit round and message counters do not wrap.
- DriverNet.DriversDeliverExactly: a party whose machine has stopped leaves the others waiting; what happens to them then is not modelled.
- The off-thread driver of the transport, which only moves the loop to another thread.
- Recovery.ForEachRecoveryEntry: the visitor is the collected sequence of rows; the two copies of the loop, for balances and for positions, are one method.
- Discovery.SinceMeetsContract: entries the guardian has already pruned are not promised to anyone, and are not modelled.
- GapScan.DepositClient.RecoverDepositsScan: a stored key is represented by its account, so which of two key pairs is stored for one is not. The 64-bit index does not wrap.
- SwapClient.SwapEndsOnlyWithItsBalanceClaimed: the retry of a failed balance read and the length of the back-off are not modelled; whether the rest of a transaction balances is a parameter.
- The local cache of liquidity positions, argument parsers, slippage helpers and fee caps of the clients, which would only add easy members.
- The USDT server: deposit proofs, withdrawal batches and refunds.
