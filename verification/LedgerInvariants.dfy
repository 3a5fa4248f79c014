/**
 Invariants of every run of the ledger: value is conserved unit by unit,
 shares add up, no share is ever diluted, and each pool's reserve product
 covers its squared share count.
 */
module LedgerInvariants {
  import opened Basics
  import opened Arith
  import opened Curve
  import opened CurveTheorems
  import opened Ledger
  import opened Sums

  // ------------------------------------------------------------ accounting

  ghost function ReserveRows(pools: map<PoolId, Pool>, u: Unit): map<PoolId, int> {
    map p | p in pools :: ReserveOf(p, pools[p], u)
  }

  function ReserveOf(p: PoolId, pool: Pool, u: Unit): int {
    if p.lo == u then pool.reserveLo else if p.hi == u then pool.reserveHi else 0
  }

  ghost function BalanceRows(balances: map<BalanceKey, Balance>, u: Unit): map<BalanceKey, int> {
    map k | k in balances :: if k.unit == u then balances[k].amount else 0
  }

  ghost function ShareRows(positions: map<LpKey, Position>, p: PoolId): map<LpKey, int> {
    map k | k in positions :: if k.pool == p then positions[k].shares else 0
  }

  /** What the module owes in one unit: reserves plus unclaimed balances. */
  ghost function Owed(s: Tables, u: Unit): int {
    Sum(ReserveRows(s.pools, u)) + Sum(BalanceRows(s.balances, u))
  }

  ghost function SharesIn(positions: map<LpKey, Position>, p: PoolId): int {
    Sum(ShareRows(positions, p))
  }

  lemma PoolWrite(pools: map<PoolId, Pool>, p: PoolId, pool: Pool, u: Unit)
    ensures Sum(ReserveRows(pools[p := pool], u)) ==
            Sum(ReserveRows(pools, u)) - (if p in pools then ReserveOf(p, pools[p], u) else 0) + ReserveOf(p, pool, u)
  {
    SumWrite(ReserveRows(pools, u), p, ReserveOf(p, pool, u));
    assert ReserveRows(pools[p := pool], u) == ReserveRows(pools, u)[p := ReserveOf(p, pool, u)];
  }

  lemma BalanceWrite(balances: map<BalanceKey, Balance>, k: BalanceKey, b: Balance, u: Unit)
    ensures Sum(BalanceRows(balances[k := b], u)) ==
            Sum(BalanceRows(balances, u)) + (if k.unit != u then 0 else if k in balances then b.amount - balances[k].amount else b.amount)
  {
    var v := if k.unit == u then b.amount else 0;
    SumWrite(BalanceRows(balances, u), k, v);
    assert BalanceRows(balances[k := b], u) == BalanceRows(balances, u)[k := v];
  }

  lemma BalanceRemove(balances: map<BalanceKey, Balance>, k: BalanceKey, u: Unit)
    requires k in balances
    ensures Sum(BalanceRows(balances - {k}, u)) == Sum(BalanceRows(balances, u)) - (if k.unit == u then balances[k].amount else 0)
  {
    SumRemove(BalanceRows(balances, u), k);
    assert BalanceRows(balances - {k}, u) == BalanceRows(balances, u) - {k};
  }

  lemma PositionWrite(positions: map<LpKey, Position>, k: LpKey, q: Position, p: PoolId)
    ensures SharesIn(positions[k := q], p) ==
            SharesIn(positions, p) + (if k.pool != p then 0 else if k in positions then q.shares - positions[k].shares else q.shares)
  {
    var v := if k.pool == p then q.shares else 0;
    SumWrite(ShareRows(positions, p), k, v);
    assert ShareRows(positions[k := q], p) == ShareRows(positions, p)[k := v];
  }

  lemma PositionRemove(positions: map<LpKey, Position>, k: LpKey, p: PoolId)
    requires k in positions
    ensures SharesIn(positions - {k}, p) == SharesIn(positions, p) - (if k.pool == p then positions[k].shares else 0)
  {
    SumRemove(ShareRows(positions, p), k);
    assert ShareRows(positions - {k}, p) == ShareRows(positions, p) - {k};
  }

  lemma PositionWithinTotal(positions: map<LpKey, Position>, k: LpKey)
    requires k in positions
    ensures positions[k].shares <= SharesIn(positions, k.pool)
  {
    SumNonNegative(ShareRows(positions, k.pool));
    assert ShareRows(positions, k.pool)[k] == positions[k].shares;
  }

  lemma NoSharesOutside(positions: map<LpKey, Position>, p: PoolId)
    requires forall k :: k in positions ==> k.pool != p
    ensures SharesIn(positions, p) == 0
  {
    SumOfZeros(ShareRows(positions, p));
  }

  lemma {:induction false} SumOfZeros(m: map<LpKey, int>)
    requires forall k :: k in m ==> m[k] == 0
    ensures Sum(m) == 0
    decreases |m|
  {
    if m != map[] {
      var k :| k in m;
      SumTake(m, k);
      assert |m - {k}| == |m| - 1;
      SumOfZeros(m - {k});
    }
  }

  // ------------------------------------------------------------- invariant

  predicate PoolSound(pool: Pool) {
    && InCap(pool.reserveLo) && InCap(pool.reserveHi)
    && pool.totalShares >= MINIMUM_LIQUIDITY
    && pool.totalShares * pool.totalShares <= pool.reserveLo * pool.reserveHi
  }

  ghost predicate PoolsSound(s: Tables) {
    forall p :: p in s.pools ==> PoolSound(s.pools[p])
  }

  ghost predicate SharesAddUp(s: Tables) {
    && (forall p :: p in s.pools ==> s.pools[p].totalShares == MINIMUM_LIQUIDITY + SharesIn(s.positions, p))
    && (forall k :: k in s.positions ==> k.pool in s.pools && s.positions[k].shares >= 1)
  }

  ghost predicate BalancesBounded(s: Tables) {
    forall k :: k in s.balances ==> InCap(s.balances[k].amount)
  }

  ghost predicate VotesAdmitted(cfg: Config, n: nat, s: Tables) {
    && (forall k :: k in s.votes ==> k.pool in s.pools && k.peer < n && FeeInBand(cfg, s.votes[k]))
    && (forall p :: p in s.desired ==> p in s.pools && FeeInBand(cfg, s.desired[p]))
  }

  ghost predicate Inv(cfg: Config, n: nat, s: Tables) {
    && n >= 1 && ValidConfig(cfg)
    && PoolsSound(s) && SharesAddUp(s) && BalancesBounded(s) && VotesAdmitted(cfg, n, s)
  }

  /** Every pool survives a step, and none of its shares loses backing. */
  ghost predicate NoDilution(s: Tables, s': Tables) {
    forall p :: p in s.pools ==> p in s'.pools && PoolNotDiluted(s.pools[p], s'.pools[p])
  }

  predicate PoolNotDiluted(a: Pool, b: Pool) {
    PerShareNotDiluted(a.reserveLo * a.reserveHi, a.totalShares, b.reserveLo * b.reserveHi, b.totalShares)
  }

  /** A step moved exactly `taken` in and `paid` out, in every unit. */
  ghost predicate Balanced(s: Tables, s': Tables, taken: Amounts, paid: Amounts) {
    forall u: Unit :: Owed(s', u) == Owed(s, u) + AmountIn(taken, u) - AmountIn(paid, u)
  }

  // ----------------------------------------------------- per-pool backing

  /** Not diluting a covered pool leaves it covered. */
  lemma CoverageKept(a: Pool, b: Pool)
    requires PoolSound(a) && PoolNotDiluted(a, b)
    ensures b.totalShares * b.totalShares <= b.reserveLo * b.reserveHi
  {
    var k, q := a.reserveLo * a.reserveHi, a.totalShares * a.totalShares;
    var k', q' := b.reserveLo * b.reserveHi, b.totalShares * b.totalShares;
    MulMonoStrict(0, a.totalShares, a.totalShares);
    MulBoth(0, b.totalShares, 0, b.totalShares);
    MulMono(q, k, q');
    assert q * q' == q' * q;
    MulCancel(q', k', q);
  }

  lemma ZeroTimes(a: int, b: int)
    ensures a == 0 || b == 0 ==> a * b == 0
  {
  }

  /** A covered pool holds something on both sides, within the cap. */
  lemma CoveredPoolIsLive(pool: Pool)
    requires pool.totalShares >= MINIMUM_LIQUIDITY
    requires pool.reserveLo <= MAX_RESERVE && pool.reserveHi <= MAX_RESERVE
    requires pool.totalShares * pool.totalShares <= pool.reserveLo * pool.reserveHi
    ensures PoolSound(pool)
  {
    MulMonoStrict(0, pool.totalShares, pool.totalShares);
    ZeroTimes(pool.reserveLo, pool.reserveHi);
  }

  /** `total_shares` never exceeds the reserve cap. */
  lemma SharesFitCap(pool: Pool)
    requires PoolSound(pool)
    ensures pool.totalShares <= MAX_RESERVE
    ensures pool.reserveLo >= pool.totalShares || pool.reserveHi >= pool.totalShares
  {
    var s := pool.totalShares;
    MulBoth(pool.reserveLo, MAX_RESERVE, pool.reserveHi, MAX_RESERVE);
    if s > MAX_RESERVE {
      MulMonoStrict(MAX_RESERVE, s, s);
      MulMonoStrict(MAX_RESERVE, s, MAX_RESERVE);
    }
    if pool.reserveLo < s && pool.reserveHi < s {
      MulBoth(pool.reserveLo, s - 1, pool.reserveHi, s - 1);
      MulMonoStrict(s - 1, s, s);
      MulMono(s - 1, s, s - 1);
    }
  }

  lemma PoolUnchangedNotDiluted(a: Pool)
    ensures PoolNotDiluted(a, a)
  {
  }

  /** Rewriting one pool soundly and without dilution keeps all pools so. */
  lemma PoolRewrite(s: Tables, s': Tables, id: PoolId, b: Pool)
    requires PoolsSound(s) && s'.pools == s.pools[id := b] && PoolSound(b)
    requires id in s.pools ==> PoolNotDiluted(s.pools[id], b)
    ensures PoolsSound(s') && NoDilution(s, s')
  {
    hide PoolSound, PoolNotDiluted;
    forall p | p in s.pools ensures PoolNotDiluted(s.pools[p], s'.pools[p]) {
      if p != id { PoolUnchangedNotDiluted(s.pools[p]); }
    }
  }

  /** Moving shares of one pool by one position keeps the books. */
  lemma SharesRewrite(s: Tables, s': Tables, id: PoolId, b: Pool, key: LpKey, shares: u64)
    requires SharesAddUp(s) && s'.pools == s.pools[id := b] && key.pool == id
    requires id in s.pools || SharesHeld(s, key) == 0
    requires b.totalShares - (if id in s.pools then s.pools[id].totalShares else MINIMUM_LIQUIDITY) == shares - SharesHeld(s, key)
    requires if shares == 0 then key in s.positions && s'.positions == s.positions - {key}
             else exists t: Tweak :: s'.positions == s.positions[key := Position(shares, t)]
    ensures SharesAddUp(s')
  {
    hide SharesIn;
    forall p | p in s'.pools ensures s'.pools[p].totalShares == MINIMUM_LIQUIDITY + SharesIn(s'.positions, p) {
      if shares == 0 { PositionRemove(s.positions, key, p); }
      else { PositionWrite(s.positions, key, s'.positions[key], p); }
      if p !in s.pools { NoSharesOutside(s.positions, p); }
    }
  }

  // ------------------------------------------------------------------ swap

  /** The pool and balance rows an accepted swap leaves behind. */
  lemma SwapRows(cfg: Config, n: nat, s: Tables, o: Output) returns (id: PoolId, q: SwapQuote)
    requires n >= 1 && ValidConfig(cfg) && o.SwapV0? && SwapStep(cfg, n, s, o).1.Ok?
    ensures MakePoolId(o.unitIn, o.unitOut) == Some(id) && id in s.pools
    ensures QuoteSwap(cfg, n, s.votes, s.pools[id], id, o.unitIn, o.amountIn, Some(o.minOut)) == Ok(q)
    ensures q.inIsLo == (o.unitIn == id.lo)
    ensures q.reserveIn == (if q.inIsLo then s.pools[id].reserveLo else s.pools[id].reserveHi)
    ensures q.reserveOut == (if q.inIsLo then s.pools[id].reserveHi else s.pools[id].reserveLo)
    ensures q.reserveInNew == q.reserveIn + o.amountIn
    ensures AmountOut(q.reserveIn, q.reserveOut, o.amountIn, ConsensusFee(cfg, n, s.votes, id)) == Ok(q.dy)
    ensures var key := BalanceKey(o.recipient, o.unitOut);
            var held := if key in s.balances then s.balances[key].amount else 0;
            held + q.dy <= U64_MAX &&
            (key in s.balances ==> held + q.dy <= MAX_RESERVE) &&
            SwapStep(cfg, n, s, o) == (SwapEffect(s, id, q, key, held + q.dy, o.tweak), Ok(map[o.unitIn := o.amountIn]))
  {
    hide AmountOut, ConsensusFee, KNonDecreasing;
    id := MakePoolId(o.unitIn, o.unitOut).value;
    q := QuoteSwap(cfg, n, s.votes, s.pools[id], id, o.unitIn, o.amountIn, Some(o.minOut)).value;
  }

  lemma SwappedPoolIsSound(a: Pool, b: Pool, q: SwapQuote, x: u64, fee: u16)
    requires PoolSound(a) && b.totalShares == a.totalShares
    requires q.reserveIn == (if q.inIsLo then a.reserveLo else a.reserveHi)
    requires q.reserveOut == (if q.inIsLo then a.reserveHi else a.reserveLo)
    requires q.reserveInNew == q.reserveIn + x && q.reserveInNew <= MAX_RESERVE && q.dy < q.reserveOut
    requires b.reserveLo == (if q.inIsLo then q.reserveInNew else q.reserveOut - q.dy)
    requires b.reserveHi == (if q.inIsLo then q.reserveOut - q.dy else q.reserveInNew)
    requires AmountOut(q.reserveIn, q.reserveOut, x, fee) == Ok(q.dy)
    ensures PoolSound(b) && PoolNotDiluted(a, b)
  {
    hide AmountOut, PoolNotDiluted;
    SwapKeepsK(q.reserveIn, q.reserveOut, x, fee);
    assert q.reserveIn * q.reserveOut == q.reserveOut * q.reserveIn;
    assert q.reserveInNew * (q.reserveOut - q.dy) == (q.reserveOut - q.dy) * q.reserveInNew;
    GrowthIsNoDilution(a, b);
    CoverageKept(a, b);
    CoveredPoolIsLive(b);
  }

  lemma SwapKeepsInv(cfg: Config, n: nat, s: Tables, o: Output)
    requires Inv(cfg, n, s) && o.SwapV0? && SwapStep(cfg, n, s, o).1.Ok?
    ensures Inv(cfg, n, SwapStep(cfg, n, s, o).0)
    ensures NoDilution(s, SwapStep(cfg, n, s, o).0)
  {
    hide AmountOut, ConsensusFee, QuoteSwap, SwapStep, PoolSound, PoolNotDiluted, SharesIn, ValidConfig, NoDilution;
    var id, q := SwapRows(cfg, n, s, o);
    var s' := SwapStep(cfg, n, s, o).0;
    SwappedPoolIsSound(s.pools[id], s'.pools[id], q, o.amountIn, ConsensusFee(cfg, n, s.votes, id));
    PoolRewrite(s, s', id, s'.pools[id]);
    assert q.dy <= MAX_RESERVE by { PoolBounds(s.pools[id]); }
  }

  lemma PoolBounds(pool: Pool)
    requires PoolSound(pool)
    ensures InCap(pool.reserveLo) && InCap(pool.reserveHi) && pool.totalShares >= MINIMUM_LIQUIDITY
  {
  }

  lemma GrowthIsNoDilution(a: Pool, b: Pool)
    requires a.totalShares == b.totalShares && b.reserveLo * b.reserveHi >= a.reserveLo * a.reserveHi
    ensures PoolNotDiluted(a, b)
  {
    MulBoth(0, a.totalShares, 0, a.totalShares);
    MulMono(a.reserveLo * a.reserveHi, b.reserveLo * b.reserveHi, a.totalShares * a.totalShares);
  }

  lemma SwapConserves(cfg: Config, n: nat, s: Tables, o: Output)
    requires Inv(cfg, n, s) && o.SwapV0? && SwapStep(cfg, n, s, o).1.Ok?
    ensures Balanced(s, SwapStep(cfg, n, s, o).0, SwapStep(cfg, n, s, o).1.value, map[])
  {
    hide AmountOut, ConsensusFee, QuoteSwap, SwapStep, ReserveRows, BalanceRows, Sum, ValidConfig, Inv;
    assert n >= 1 && ValidConfig(cfg) by { InvConfig(cfg, n, s); }
    var id, q := SwapRows(cfg, n, s, o);
    var s' := SwapStep(cfg, n, s, o).0;
    var key := BalanceKey(o.recipient, o.unitOut);
    forall u: Unit ensures Owed(s', u) == Owed(s, u) + AmountIn(map[o.unitIn := o.amountIn], u) {
      PoolWrite(s.pools, id, s'.pools[id], u);
      BalanceWrite(s.balances, key, s'.balances[key], u);
    }
  }

  lemma InvConfig(cfg: Config, n: nat, s: Tables)
    requires Inv(cfg, n, s)
    ensures n >= 1 && ValidConfig(cfg)
  {
  }

  // --------------------------------------------------------------- deposit

  lemma DepositRows(cfg: Config, s: Tables, o: Output) returns (m: MintOutcome)
    requires o.DepositV0? && DepositStep(cfg, s, o).1.Ok?
    ensures var pool := PoolOrEmpty(s, o.pool);
            MintShares(pool.reserveLo, pool.reserveHi, pool.totalShares, o.amountLo, o.amountHi) == Ok(m) &&
            pool.reserveLo + o.amountLo <= MAX_RESERVE && pool.reserveHi + o.amountHi <= MAX_RESERVE &&
            o.amountLo >= 1 && o.amountHi >= 1
    ensures var pool, key := PoolOrEmpty(s, o.pool), LpKey(o.pool, o.owner);
            SharesHeld(s, key) + m.toOwner <= U64_MAX &&
            DepositStep(cfg, s, o) ==
              (s.(pools := s.pools[o.pool := Pool(pool.reserveLo + o.amountLo, pool.reserveHi + o.amountHi, m.newTotalShares)],
                  positions := s.positions[key := Position(SharesHeld(s, key) + m.toOwner, o.tweak)]),
               Ok(map[o.pool.lo := o.amountLo, o.pool.hi := o.amountHi]))
  {
    var pool := PoolOrEmpty(s, o.pool);
    m := MintShares(pool.reserveLo, pool.reserveHi, pool.totalShares, o.amountLo, o.amountHi).value;
  }

  /** The minted pool, whether it existed or not, is covered and undiluted. */
  lemma MintedPoolIsSound(before: Pool, existed: bool, da: u64, db: u64, m: MintOutcome)
    requires if existed then PoolSound(before) else before == Pool(0, 0, 0)
    requires MintShares(before.reserveLo, before.reserveHi, before.totalShares, da, db) == Ok(m)
    requires before.reserveLo + da <= MAX_RESERVE && before.reserveHi + db <= MAX_RESERVE
    ensures PoolSound(Pool(before.reserveLo + da, before.reserveHi + db, m.newTotalShares))
    ensures existed ==> PoolNotDiluted(before, Pool(before.reserveLo + da, before.reserveHi + db, m.newTotalShares))
    ensures m.newTotalShares == m.toOwner + (if existed then before.totalShares else MINIMUM_LIQUIDITY)
    ensures m.toOwner >= 1
  {
    hide MintShares;
    var pool' := Pool(before.reserveLo + da, before.reserveHi + db, m.newTotalShares);
    if existed {
      MintIsLargestFair(before.reserveLo, before.reserveHi, before.totalShares, da, db);
      MintKeepsShareValue(before.reserveLo, before.reserveHi, before.totalShares, da, db);
      CoverageKept(before, pool');
    } else {
      FirstMintIsCovered(da, db);
    }
    CoveredPoolIsLive(pool');
  }

  lemma DepositKeepsInv(cfg: Config, n: nat, s: Tables, o: Output)
    requires Inv(cfg, n, s) && o.DepositV0? && DepositStep(cfg, s, o).1.Ok?
    ensures Inv(cfg, n, DepositStep(cfg, s, o).0)
    ensures NoDilution(s, DepositStep(cfg, s, o).0)
  {
    hide MintShares, DepositStep, PoolSound, PoolNotDiluted, SharesIn, ValidConfig, NoDilution;
    var m := DepositRows(cfg, s, o);
    var pool, key := PoolOrEmpty(s, o.pool), LpKey(o.pool, o.owner);
    var s' := DepositStep(cfg, s, o).0;
    MintedPoolIsSound(pool, o.pool in s.pools, o.amountLo, o.amountHi, m);
    PoolRewrite(s, s', o.pool, s'.pools[o.pool]);
    SharesRewrite(s, s', o.pool, s'.pools[o.pool], key, SharesHeld(s, key) + m.toOwner);
  }

  lemma DepositConserves(cfg: Config, s: Tables, o: Output)
    requires o.DepositV0? && DepositStep(cfg, s, o).1.Ok?
    ensures Balanced(s, DepositStep(cfg, s, o).0, DepositStep(cfg, s, o).1.value, map[])
  {
    hide MintShares, DepositStep;
    var m := DepositRows(cfg, s, o);
    var s' := DepositStep(cfg, s, o).0;
    forall u: Unit ensures Owed(s', u) == Owed(s, u) + AmountIn(DepositStep(cfg, s, o).1.value, u) {
      PoolWrite(s.pools, o.pool, s'.pools[o.pool], u);
    }
  }

  // ----------------------------------------------------------------- claim

  lemma ClaimKeeps(cfg: Config, n: nat, s: Tables, i: Input)
    requires Inv(cfg, n, s) && i.ClaimBalanceV0? && ClaimStep(s, i).1.Ok?
    ensures Inv(cfg, n, ClaimStep(s, i).0) && NoDilution(s, ClaimStep(s, i).0)
    ensures Balanced(s, ClaimStep(s, i).0, map[], ClaimStep(s, i).1.value)
  {
    hide PerShareNotDiluted;
    var s' := ClaimStep(s, i).0;
    forall p | p in s.pools ensures PoolNotDiluted(s.pools[p], s'.pools[p]) { PoolUnchangedNotDiluted(s.pools[p]); }
    forall u: Unit ensures Owed(s', u) == Owed(s, u) - AmountIn(ClaimStep(s, i).1.value, u) {
      BalanceRemove(s.balances, BalanceKey(i.pubkey, i.unit), u);
    }
  }

  // -------------------------------------------------------------- withdraw

  lemma WithdrawRows(s: Tables, i: Input) returns (b: BurnOutcome)
    requires i.WithdrawV0? && WithdrawStep(s, i).1.Ok?
    ensures i.pool in s.pools && LpKey(i.pool, i.owner) in s.positions && i.shares <= s.positions[LpKey(i.pool, i.owner)].shares
    ensures BurnShares(s.pools[i.pool].reserveLo, s.pools[i.pool].reserveHi, s.pools[i.pool].totalShares, i.shares) == Ok(b)
    ensures var pool, key := s.pools[i.pool], LpKey(i.pool, i.owner);
            b.da <= pool.reserveLo && b.db <= pool.reserveHi && b.newTotalShares == pool.totalShares - i.shares && i.shares >= 1 &&
            var left: u64 := s.positions[key].shares - i.shares;
            WithdrawStep(s, i) ==
              (s.(pools := s.pools[i.pool := Pool(pool.reserveLo - b.da, pool.reserveHi - b.db, b.newTotalShares)],
                  positions := if left == 0 then s.positions - {key} else s.positions[key := s.positions[key].(shares := left)]),
               Ok(Payout(i.pool, b.da, b.db)))
  {
    var pool := s.pools[i.pool];
    b := BurnShares(pool.reserveLo, pool.reserveHi, pool.totalShares, i.shares).value;
    BurnIsFloored(pool.reserveLo, pool.reserveHi, pool.totalShares, i.shares);
  }

  lemma BurntPoolIsSound(pool: Pool, n: u64, b: BurnOutcome)
    requires PoolSound(pool) && n <= pool.totalShares - MINIMUM_LIQUIDITY
    requires BurnShares(pool.reserveLo, pool.reserveHi, pool.totalShares, n) == Ok(b)
    requires b.da <= pool.reserveLo && b.db <= pool.reserveHi && b.newTotalShares == pool.totalShares - n
    ensures PoolSound(Pool(pool.reserveLo - b.da, pool.reserveHi - b.db, b.newTotalShares))
    ensures PoolNotDiluted(pool, Pool(pool.reserveLo - b.da, pool.reserveHi - b.db, b.newTotalShares))
  {
    hide BurnShares;
    var pool' := Pool(pool.reserveLo - b.da, pool.reserveHi - b.db, b.newTotalShares);
    BurnKeepsShareValue(pool.reserveLo, pool.reserveHi, pool.totalShares, n);
    CoverageKept(pool, pool');
    CoveredPoolIsLive(pool');
  }

  lemma WithdrawKeepsInv(cfg: Config, n: nat, s: Tables, i: Input)
    requires Inv(cfg, n, s) && i.WithdrawV0? && WithdrawStep(s, i).1.Ok?
    ensures Inv(cfg, n, WithdrawStep(s, i).0)
    ensures NoDilution(s, WithdrawStep(s, i).0)
  {
    hide BurnShares, WithdrawStep, PoolSound, PoolNotDiluted, SharesIn, ValidConfig, NoDilution;
    var b := WithdrawRows(s, i);
    var pool, key := s.pools[i.pool], LpKey(i.pool, i.owner);
    var s' := WithdrawStep(s, i).0;
    PositionWithinTotal(s.positions, key);
    BurntPoolIsSound(pool, i.shares, b);
    PoolRewrite(s, s', i.pool, s'.pools[i.pool]);
    SharesRewrite(s, s', i.pool, s'.pools[i.pool], key, s.positions[key].shares - i.shares);
  }

  lemma WithdrawConserves(s: Tables, i: Input)
    requires i.WithdrawV0? && WithdrawStep(s, i).1.Ok?
    ensures Balanced(s, WithdrawStep(s, i).0, map[], WithdrawStep(s, i).1.value)
  {
    hide BurnShares, WithdrawStep;
    var b := WithdrawRows(s, i);
    var s' := WithdrawStep(s, i).0;
    forall u: Unit ensures Owed(s', u) == Owed(s, u) - AmountIn(WithdrawStep(s, i).1.value, u) {
      PoolWrite(s.pools, i.pool, s'.pools[i.pool], u);
    }
  }
}
