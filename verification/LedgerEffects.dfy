/**
 Who an item of the ledger can reach: which rows it may write, by how much,
 and that a holding falls only by an input that names its own key.
 */
module LedgerEffects {
  import opened Basics
  import opened Arith
  import opened Curve
  import opened CurveTheorems
  import opened Ledger
  import opened LedgerInvariants
  import opened LedgerRuns

  // ----------------------------------------------------------------- framing

  function PoolOf(item: Item): Option<PoolId> {
    match item
    case OutputItem(SwapV0(unitIn, unitOut, _, _, _, _, _)) => MakePoolId(unitIn, unitOut)
    case OutputItem(DepositV0(pool, _, _, _, _, _, _)) => Some(pool)
    case InputItem(WithdrawV0(pool, _, _, _, _, _, _)) => Some(pool)
    case _ => None
  }

  function PositionOf(item: Item): Option<LpKey> {
    match item
    case OutputItem(DepositV0(pool, _, _, _, owner, _, _)) => Some(LpKey(pool, owner))
    case InputItem(WithdrawV0(pool, owner, _, _, _, _, _)) => Some(LpKey(pool, owner))
    case _ => None
  }

  function BalanceOf(item: Item): Option<BalanceKey> {
    match item
    case OutputItem(SwapV0(_, unitOut, _, _, recipient, _, _)) => Some(BalanceKey(recipient, unitOut))
    case InputItem(ClaimBalanceV0(pubkey, unit)) => Some(BalanceKey(pubkey, unit))
    case _ => None
  }

  function VoteOf(item: Item): Option<VoteKey> {
    match item
    case VoteItem(FeeVoteV0(pool, _), peer) => Some(VoteKey(pool, peer))
    case _ => None
  }

  function IntentOf(item: Item): Option<PoolId> {
    match item
    case IntentItem(pool, _) => Some(pool)
    case _ => None
  }

  /** The two tables agree on every key but at most the given one. */
  ghost predicate SameBut<K(!new), V>(a: map<K, V>, b: map<K, V>, key: Option<K>) {
    forall k :: key != Some(k) ==> (k in a <==> k in b) && (k in a ==> a[k] == b[k])
  }

  /** An item writes at most one row of each table: its own pool, its own
      position, its own balance, its own vote, its own intent. */
  lemma OnlyItsRowsMove(cfg: Config, n: nat, s: Tables, item: Item)
    requires n >= 1 && ValidConfig(cfg)
    ensures var s' := Apply(cfg, n, s, item).tables;
            SameBut(s.pools, s'.pools, PoolOf(item)) && SameBut(s.positions, s'.positions, PositionOf(item)) &&
            SameBut(s.balances, s'.balances, BalanceOf(item)) && SameBut(s.votes, s'.votes, VoteOf(item)) &&
            SameBut(s.desired, s'.desired, IntentOf(item))
  {
    hide OutputStep, InputStep, VoteStep, ValidConfig;
    match item {
      case OutputItem(o) =>
        if o.SwapV0? { SwapRowsMove(cfg, n, s, o); }
        else if o.DepositV0? { DepositRowsMove(cfg, n, s, o); }
        else { OtherRowsMove(cfg, n, s, item); }
      case InputItem(i) => if i.WithdrawV0? { WithdrawRowsMove(s, i); } else { ClaimRowsMove(s, i); }
      case _ => OtherRowsMove(cfg, n, s, item);
    }
  }

  lemma SwapRowsMove(cfg: Config, n: nat, s: Tables, o: Output)
    requires n >= 1 && ValidConfig(cfg) && o.SwapV0?
    ensures var s' := OutputStep(cfg, n, s, o).0;
            SameBut(s.pools, s'.pools, PoolOf(OutputItem(o))) && s'.positions == s.positions &&
            SameBut(s.balances, s'.balances, BalanceOf(OutputItem(o))) && s'.votes == s.votes && s'.desired == s.desired
  {
    hide QuoteSwap, SwapStep, ValidConfig;
    if SwapStep(cfg, n, s, o).1.Ok? { var id, q := SwapRows(cfg, n, s, o); } else { OutputRefused(cfg, n, s, o); }
  }

  lemma DepositRowsMove(cfg: Config, n: nat, s: Tables, o: Output)
    requires n >= 1 && ValidConfig(cfg) && o.DepositV0?
    ensures var s' := OutputStep(cfg, n, s, o).0;
            SameBut(s.pools, s'.pools, PoolOf(OutputItem(o))) && SameBut(s.positions, s'.positions, PositionOf(OutputItem(o))) &&
            s'.balances == s.balances && s'.votes == s.votes && s'.desired == s.desired
  {
    hide MintShares, DepositStep, ValidConfig;
    if DepositStep(cfg, s, o).1.Ok? { var m := DepositRows(cfg, s, o); } else { OutputRefused(cfg, n, s, o); }
  }

  lemma ClaimRowsMove(s: Tables, i: Input)
    requires !i.WithdrawV0?
    ensures var s' := InputStep(s, i).0;
            s'.pools == s.pools && s'.positions == s.positions &&
            SameBut(s.balances, s'.balances, BalanceOf(InputItem(i))) && s'.votes == s.votes && s'.desired == s.desired
  {
  }

  lemma WithdrawRowsMove(s: Tables, i: Input)
    requires i.WithdrawV0?
    ensures var s' := InputStep(s, i).0;
            SameBut(s.pools, s'.pools, PoolOf(InputItem(i))) && SameBut(s.positions, s'.positions, PositionOf(InputItem(i))) &&
            s'.balances == s.balances && s'.votes == s.votes && s'.desired == s.desired
  {
    hide BurnShares, WithdrawStep;
    if WithdrawStep(s, i).1.Ok? { var b := WithdrawRows(s, i); } else { WithdrawRefused(s, i); }
  }

  lemma OtherRowsMove(cfg: Config, n: nat, s: Tables, item: Item)
    requires n >= 1 && ValidConfig(cfg) && (item.VoteItem? || item.IntentItem? || item == OutputItem(UnknownOutput))
    ensures var s' := Apply(cfg, n, s, item).tables;
            s'.pools == s.pools && s'.positions == s.positions && s'.balances == s.balances &&
            SameBut(s.votes, s'.votes, VoteOf(item)) && SameBut(s.desired, s'.desired, IntentOf(item))
  {
    hide SwapStep, DepositStep, InputStep, ValidConfig;
  }

  // ------------------------------------------------------------------ amounts

  function BalanceHeld(s: Tables, key: BalanceKey): nat {
    if key in s.balances then s.balances[key].amount else 0
  }

  /** A settled deposit puts both legs in the pool and credits its owner with
      at least the minimum asked for; a new pool keeps the minimum liquidity. */
  lemma DepositSettles(cfg: Config, n: nat, s: Tables, o: Output)
    requires Inv(cfg, n, s) && o.DepositV0? && DepositStep(cfg, s, o).1.Ok?
    ensures var s' := DepositStep(cfg, s, o).0;
            var a, key := PoolOrEmpty(s, o.pool), LpKey(o.pool, o.owner);
            o.pool in s'.pools && key in s'.positions &&
            var b, minted := s'.pools[o.pool], SharesHeld(s', key) - SharesHeld(s, key);
            b.reserveLo == a.reserveLo + o.amountLo && b.reserveHi == a.reserveHi + o.amountHi &&
            minted >= 1 && minted >= o.minShares &&
            b.totalShares == a.totalShares + minted + (if o.pool in s.pools then 0 else MINIMUM_LIQUIDITY) &&
            (o.pool in s.pools ==>
               minted * a.reserveLo <= o.amountLo * a.totalShares && minted * a.reserveHi <= o.amountHi * a.totalShares) &&
            DepositStep(cfg, s, o).1 == Ok(map[o.pool.lo := o.amountLo, o.pool.hi := o.amountHi])
  {
    hide MintShares, SharesIn, VotesAdmitted, BalancesBounded, ValidConfig;
    var pool := PoolOrEmpty(s, o.pool);
    if o.pool in s.pools {
      PoolBounds(pool);
      MintIsLargestFair(pool.reserveLo, pool.reserveHi, pool.totalShares, o.amountLo, o.amountHi);
    } else {
      FirstMintIsCovered(o.amountLo, o.amountHi);
    }
  }

  /** A settled withdrawal takes exactly the burned shares from its owner and
      from the pool, and pays each side the floored pro-rata part. */
  lemma WithdrawSettles(s: Tables, i: Input)
    requires i.WithdrawV0? && WithdrawStep(s, i).1.Ok?
    ensures i.pool in s.pools
    ensures var s', paid := WithdrawStep(s, i).0, WithdrawStep(s, i).1.value;
            var key, a := LpKey(i.pool, i.owner), s.pools[i.pool];
            var lo, hi := AmountIn(paid, i.pool.lo), AmountIn(paid, i.pool.hi);
            1 <= i.shares <= SharesHeld(s, key) && i.pool in s'.pools &&
            SharesHeld(s', key) == SharesHeld(s, key) - i.shares && (key in s'.positions <==> SharesHeld(s', key) > 0) &&
            lo <= a.reserveLo && hi <= a.reserveHi &&
            s'.pools[i.pool] == Pool(a.reserveLo - lo, a.reserveHi - hi, a.totalShares - i.shares) &&
            i.minLo <= lo <= i.maxLo && i.minHi <= hi <= i.maxHi &&
            lo * a.totalShares <= a.reserveLo * i.shares < (lo + 1) * a.totalShares &&
            hi * a.totalShares <= a.reserveHi * i.shares < (hi + 1) * a.totalShares
  {
    hide BurnShares;
    var a := s.pools[i.pool];
    BurnIsFloored(a.reserveLo, a.reserveHi, a.totalShares, i.shares);
  }

  /** Withdrawing at once what a deposit minted pays back no more than the
      deposit put in, on either side. */
  lemma DepositThenWithdrawNeverProfits(cfg: Config, n: nat, s: Tables, o: Output, i: Input)
    requires Inv(cfg, n, s) && o.DepositV0? && DepositStep(cfg, s, o).1.Ok?
    requires i.WithdrawV0? && i.pool == o.pool && i.owner == o.owner
    requires var s' := DepositStep(cfg, s, o).0; var key := LpKey(o.pool, o.owner);
             i.shares == SharesHeld(s', key) - SharesHeld(s, key) && WithdrawStep(s', i).1.Ok?
    ensures var paid := WithdrawStep(DepositStep(cfg, s, o).0, i).1.value;
            AmountIn(paid, o.pool.lo) <= o.amountLo && AmountIn(paid, o.pool.hi) <= o.amountHi
  {
    hide DepositStep, WithdrawStep, Inv, SharesHeld, PoolOrEmpty, AmountIn;
    DepositSettles(cfg, n, s, o);
    var s' := DepositStep(cfg, s, o).0;
    WithdrawSettles(s', i);
    var paid, a, b := WithdrawStep(s', i).1.value, PoolOrEmpty(s, o.pool), s'.pools[o.pool];
    PoolIsLiveOrEmpty(cfg, n, s, o.pool);
    PaidBack(a.reserveLo, a.totalShares, o.amountLo, i.shares, AmountIn(paid, o.pool.lo), b.totalShares);
    PaidBack(a.reserveHi, a.totalShares, o.amountHi, i.shares, AmountIn(paid, o.pool.hi), b.totalShares);
  }

  lemma PoolIsLiveOrEmpty(cfg: Config, n: nat, s: Tables, id: PoolId)
    requires Inv(cfg, n, s)
    ensures if id in s.pools then PoolOrEmpty(s, id).totalShares > 0 else PoolOrEmpty(s, id) == Pool(0, 0, 0)
  {
    hide SharesAddUp, VotesAdmitted, BalancesBounded, ValidConfig;
    if id in s.pools { PoolBounds(s.pools[id]); }
  }

  lemma PaidBack(a: nat, s: nat, da: nat, minted: nat, back: nat, total: nat)
    requires back <= a + da && back * total <= (a + da) * minted
    requires if s > 0 then total == s + minted && minted * a <= da * s else a == 0
    ensures back <= da
  {
    if s > 0 { ProRataBack(a, s, da, minted, back); }
  }

  // ------------------------------------------------------------------ custody

  predicate Claims(item: Item, key: BalanceKey) {
    item.InputItem? && item.input == ClaimBalanceV0(key.owner, key.unit)
  }

  predicate Withdraws(item: Item, key: LpKey) {
    item.InputItem? && item.input.WithdrawV0? && item.input.pool == key.pool && item.input.owner == key.owner
  }

  /** An accepted claim takes the whole balance row; nothing else takes from one. */
  lemma BalanceFallsOnlyByItsClaim(cfg: Config, n: nat, s: Tables, item: Item, key: BalanceKey)
    requires n >= 1 && ValidConfig(cfg)
    ensures var e := Apply(cfg, n, s, item);
            if e.accepted && Claims(item, key) then key in s.balances && key !in e.tables.balances
            else BalanceHeld(e.tables, key) >= BalanceHeld(s, key) && (key in s.balances ==> key in e.tables.balances)
  {
    hide QuoteSwap, KNonDecreasing, BurnShares, MintShares, ValidConfig;
  }

  /** Only an accepted withdrawal of its own takes from a position. */
  lemma PositionFallsOnlyByItsWithdrawal(cfg: Config, n: nat, s: Tables, item: Item, key: LpKey)
    requires n >= 1 && ValidConfig(cfg)
    ensures var e := Apply(cfg, n, s, item);
            !(e.accepted && Withdraws(item, key)) ==> SharesHeld(e.tables, key) >= SharesHeld(s, key)
  {
    hide QuoteSwap, KNonDecreasing, BurnShares, MintShares, ValidConfig;
  }

  /** Whoever loses part of a holding in a step signed for it. */
  lemma OnlyTheSignerLoses(cfg: Config, n: nat, s: Tables, item: Item, balance: BalanceKey, position: LpKey)
    requires n >= 1 && ValidConfig(cfg)
    ensures var e := Apply(cfg, n, s, item);
            (BalanceHeld(e.tables, balance) < BalanceHeld(s, balance) ==>
               e.accepted && item.InputItem? && SignerOf(item.input) == Some(balance.owner)) &&
            (SharesHeld(e.tables, position) < SharesHeld(s, position) ==>
               e.accepted && item.InputItem? && SignerOf(item.input) == Some(position.owner))
  {
    hide Apply, ValidConfig, BalanceHeld, SharesHeld;
    BalanceFallsOnlyByItsClaim(cfg, n, s, item, balance);
    PositionFallsOnlyByItsWithdrawal(cfg, n, s, item, position);
  }

  /** Over any run in which no input names them, a balance and a position never
      fall, whatever everyone else does. */
  lemma {:induction false} HoldingsAreKept(cfg: Config, n: nat, s: Tables, items: seq<Item>, balance: BalanceKey, position: LpKey)
    requires n >= 1 && ValidConfig(cfg)
    requires forall k :: 0 <= k < |items| ==> !Claims(items[k], balance) && !Withdraws(items[k], position)
    ensures var s' := Run(cfg, n, s, items);
            BalanceHeld(s', balance) >= BalanceHeld(s, balance) && SharesHeld(s', position) >= SharesHeld(s, position)
    decreases |items|
  {
    hide Apply, ValidConfig, BalanceHeld, SharesHeld;
    if items != [] {
      BalanceFallsOnlyByItsClaim(cfg, n, s, items[0], balance);
      PositionFallsOnlyByItsWithdrawal(cfg, n, s, items[0], position);
      HoldingsAreKept(cfg, n, Apply(cfg, n, s, items[0]).tables, items[1..], balance, position);
    }
  }
}
