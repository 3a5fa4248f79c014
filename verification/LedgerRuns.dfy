/**
 Whole runs of the ledger, and what they make unreachable.
 */
module LedgerRuns {
  import opened Basics
  import opened Arith
  import opened Curve
  import opened CurveTheorems
  import opened Ledger
  import opened LedgerInvariants
  import opened Sums

  /** Everything that can write a table. A vote carries the peer the ordering
      layer attributed it to. */
  datatype Item =
    | OutputItem(output: Output)
    | InputItem(input: Input)
    | VoteItem(vote: ConsensusItem, peer: PeerId)
    | IntentItem(pool: PoolId, fee: u16)

  predicate Attributed(n: nat, item: Item) {
    item.VoteItem? ==> item.peer < n
  }

  datatype Effect = Effect(tables: Tables, taken: Amounts, paid: Amounts, accepted: bool)

  function Apply(cfg: Config, n: nat, s: Tables, item: Item): Effect
    requires n >= 1 && ValidConfig(cfg)
  {
    match item
    case OutputItem(o) =>
      var r := OutputStep(cfg, n, s, o);
      if r.1.Ok? then Effect(r.0, r.1.value, map[], true) else Effect(r.0, map[], map[], false)
    case InputItem(i) =>
      var r := InputStep(s, i);
      if r.1.Ok? then Effect(r.0, map[], r.1.value, true) else Effect(r.0, map[], map[], false)
    case VoteItem(vote, peer) =>
      var r := VoteStep(cfg, s, vote, peer);
      Effect(r.0, map[], map[], r.1.Ok?)
    case IntentItem(pool, fee) => Effect(IntentStep(cfg, s, pool, fee), map[], map[], true)
  }

  /** The three promises of one item, accepted or not. */
  lemma ItemKeeps(cfg: Config, n: nat, s: Tables, item: Item)
    requires Inv(cfg, n, s) && Attributed(n, item)
    ensures var e := Apply(cfg, n, s, item);
            Inv(cfg, n, e.tables) && NoDilution(s, e.tables) && Balanced(s, e.tables, e.taken, e.paid)
    ensures !Apply(cfg, n, s, item).accepted ==> Apply(cfg, n, s, item).tables == s
  {
    hide SwapStep, DepositStep, ClaimStep, WithdrawStep, VoteStep, IntentStep, NoDilution, Balanced, Inv, VotesAdmitted;
    InvParts(cfg, n, s);
    match item {
      case OutputItem(o) =>
        if o.SwapV0? { SwapItem(cfg, n, s, o); }
        else if o.DepositV0? { DepositItem(cfg, n, s, o); }
        else { Unmoved(s, s); }
      case InputItem(i) =>
        if i.ClaimBalanceV0? { ClaimItem(cfg, n, s, i); }
        else if i.WithdrawV0? { WithdrawItem(cfg, n, s, i); }
        else { Unmoved(s, s); }
      case VoteItem(vote, peer) =>
        VoteAdmitted(cfg, n, s, vote, peer);
        VotingKeeps(cfg, n, s, VoteStep(cfg, s, vote, peer).0);
      case IntentItem(pool, fee) =>
        IntentAdmitted(cfg, n, s, pool, fee);
        VotingKeeps(cfg, n, s, IntentStep(cfg, s, pool, fee));
    }
  }

  lemma VotingKeeps(cfg: Config, n: nat, s: Tables, s': Tables)
    requires Inv(cfg, n, s) && VotesAdmitted(cfg, n, s')
    requires s'.pools == s.pools && s'.positions == s.positions && s'.balances == s.balances
    ensures Inv(cfg, n, s') && NoDilution(s, s') && Balanced(s, s', map[], map[])
  {
    hide PoolsSound, SharesAddUp, BalancesBounded, VotesAdmitted, NoDilution, Balanced, ValidConfig;
    OnlyVotesMoved(s, s');
    Unmoved(s, s');
  }

  lemma VoteAdmitted(cfg: Config, n: nat, s: Tables, item: ConsensusItem, peer: PeerId)
    requires VotesAdmitted(cfg, n, s) && peer < n
    ensures var (s', r) := VoteStep(cfg, s, item, peer);
            VotesAdmitted(cfg, n, s') && (r.Err? ==> s' == s) &&
            s'.pools == s.pools && s'.positions == s.positions && s'.balances == s.balances
  {
  }

  lemma IntentAdmitted(cfg: Config, n: nat, s: Tables, pool: PoolId, fee: u16)
    requires VotesAdmitted(cfg, n, s)
    ensures var s' := IntentStep(cfg, s, pool, fee);
            VotesAdmitted(cfg, n, s') && s'.pools == s.pools && s'.positions == s.positions && s'.balances == s.balances
  {
  }

  lemma InvParts(cfg: Config, n: nat, s: Tables)
    requires Inv(cfg, n, s)
    ensures n >= 1 && ValidConfig(cfg) && VotesAdmitted(cfg, n, s)
  {
  }

  lemma OnlyVotesMoved(s: Tables, s': Tables)
    requires s'.pools == s.pools && s'.positions == s.positions && s'.balances == s.balances
    requires PoolsSound(s) && SharesAddUp(s) && BalancesBounded(s)
    ensures PoolsSound(s') && SharesAddUp(s') && BalancesBounded(s')
  {
    hide PoolSound, SharesIn;
  }

  /** Votes and refusals move no value and touch no pool. */
  lemma Unmoved(s: Tables, s': Tables)
    requires s'.pools == s.pools && s'.balances == s.balances
    ensures NoDilution(s, s') && Balanced(s, s', map[], map[])
  {
    hide PoolNotDiluted;
    forall p | p in s.pools ensures PoolNotDiluted(s.pools[p], s'.pools[p]) { PoolUnchangedNotDiluted(s.pools[p]); }
  }

  lemma SwapItem(cfg: Config, n: nat, s: Tables, o: Output)
    requires Inv(cfg, n, s) && o.SwapV0?
    ensures var (s', r) := SwapStep(cfg, n, s, o);
            Inv(cfg, n, s') && NoDilution(s, s') &&
            Balanced(s, s', if r.Ok? then r.value else map[], map[]) && (r.Err? ==> s' == s)
  {
    InvConfig(cfg, n, s);
    if SwapStep(cfg, n, s, o).1.Ok? {
      hide *;
      SwapKeepsInv(cfg, n, s, o);
      SwapConserves(cfg, n, s, o);
    } else {
      hide *;
      OutputRefused(cfg, n, s, o);
      Unmoved(s, s);
    }
  }

  lemma OutputRefused(cfg: Config, n: nat, s: Tables, o: Output)
    requires n >= 1 && ValidConfig(cfg)
    ensures o.SwapV0? && SwapStep(cfg, n, s, o).1.Err? ==> SwapStep(cfg, n, s, o).0 == s
    ensures o.DepositV0? && DepositStep(cfg, s, o).1.Err? ==> DepositStep(cfg, s, o).0 == s
  {
    hide AmountOut, MintShares, KNonDecreasing, ConsensusFee;
  }

  lemma WithdrawRefused(s: Tables, i: Input)
    requires i.WithdrawV0? && WithdrawStep(s, i).1.Err?
    ensures WithdrawStep(s, i).0 == s
  {
    hide BurnShares;
  }

  lemma DepositItem(cfg: Config, n: nat, s: Tables, o: Output)
    requires Inv(cfg, n, s) && o.DepositV0?
    ensures var (s', r) := DepositStep(cfg, s, o);
            Inv(cfg, n, s') && NoDilution(s, s') &&
            Balanced(s, s', if r.Ok? then r.value else map[], map[]) && (r.Err? ==> s' == s)
  {
    InvConfig(cfg, n, s);
    if DepositStep(cfg, s, o).1.Ok? {
      hide *;
      DepositKeepsInv(cfg, n, s, o);
      DepositConserves(cfg, s, o);
    } else {
      hide *;
      OutputRefused(cfg, n, s, o);
      Unmoved(s, s);
    }
  }

  lemma ClaimItem(cfg: Config, n: nat, s: Tables, i: Input)
    requires Inv(cfg, n, s) && i.ClaimBalanceV0?
    ensures var (s', r) := ClaimStep(s, i);
            Inv(cfg, n, s') && NoDilution(s, s') &&
            Balanced(s, s', map[], if r.Ok? then r.value else map[]) && (r.Err? ==> s' == s)
  {
    if ClaimStep(s, i).1.Ok? { ClaimKeeps(cfg, n, s, i); } else { Unmoved(s, s); }
  }

  lemma WithdrawItem(cfg: Config, n: nat, s: Tables, i: Input)
    requires Inv(cfg, n, s) && i.WithdrawV0?
    ensures var (s', r) := WithdrawStep(s, i);
            Inv(cfg, n, s') && NoDilution(s, s') &&
            Balanced(s, s', map[], if r.Ok? then r.value else map[]) && (r.Err? ==> s' == s)
  {
    if WithdrawStep(s, i).1.Ok? {
      hide *;
      WithdrawKeepsInv(cfg, n, s, i);
      WithdrawConserves(s, i);
    } else {
      hide *;
      WithdrawRefused(s, i);
      Unmoved(s, s);
    }
  }

  // ------------------------------------------------------------------ runs

  function Run(cfg: Config, n: nat, s: Tables, items: seq<Item>): Tables
    requires n >= 1 && ValidConfig(cfg)
    decreases |items|
  {
    if items == [] then s else Run(cfg, n, Apply(cfg, n, s, items[0]).tables, items[1..])
  }

  /** Value taken in by accepted outputs of the run, in one unit. */
  function Taken(cfg: Config, n: nat, s: Tables, items: seq<Item>, u: Unit): nat
    requires n >= 1 && ValidConfig(cfg)
    decreases |items|
  {
    if items == [] then 0
    else
      var e := Apply(cfg, n, s, items[0]);
      AmountIn(e.taken, u) + Taken(cfg, n, e.tables, items[1..], u)
  }

  /** Value paid out by accepted inputs of the run, in one unit. */
  function Paid(cfg: Config, n: nat, s: Tables, items: seq<Item>, u: Unit): nat
    requires n >= 1 && ValidConfig(cfg)
    decreases |items|
  {
    if items == [] then 0
    else
      var e := Apply(cfg, n, s, items[0]);
      AmountIn(e.paid, u) + Paid(cfg, n, e.tables, items[1..], u)
  }

  ghost predicate AllAttributed(n: nat, items: seq<Item>) {
    forall k :: 0 <= k < |items| ==> Attributed(n, items[k])
  }

  lemma EmptyIsSound(cfg: Config, n: nat)
    requires n >= 1 && ValidConfig(cfg)
    ensures Inv(cfg, n, EMPTY)
    ensures forall u: Unit :: Owed(EMPTY, u) == 0
  {
    forall u: Unit ensures Owed(EMPTY, u) == 0 {
      assert ReserveRows(EMPTY.pools, u) == map[];
      assert BalanceRows(EMPTY.balances, u) == map[];
    }
  }

  /** From any sound state, every run keeps the invariant, moves exactly the
      accounted value in every unit, and dilutes no pool. */
  lemma {:induction false} RunKeeps(cfg: Config, n: nat, s: Tables, items: seq<Item>, u: Unit)
    requires Inv(cfg, n, s) && AllAttributed(n, items)
    ensures Inv(cfg, n, Run(cfg, n, s, items))
    ensures NoDilution(s, Run(cfg, n, s, items))
    ensures Owed(Run(cfg, n, s, items), u) == Owed(s, u) + Taken(cfg, n, s, items, u) - Paid(cfg, n, s, items, u)
    decreases |items|
  {
    hide Apply, Owed, PoolNotDiluted, PoolsSound, SharesAddUp, BalancesBounded, VotesAdmitted, ValidConfig;
    if items == [] {
      Unmoved(s, s);
    } else {
      ItemKeeps(cfg, n, s, items[0]);
      var s1 := Apply(cfg, n, s, items[0]).tables;
      RunKeeps(cfg, n, s1, items[1..], u);
      NoDilutionTransitive(s, s1, Run(cfg, n, s, items), cfg, n);
    }
  }

  lemma NoDilutionTransitive(s0: Tables, s1: Tables, s2: Tables, cfg: Config, n: nat)
    requires Inv(cfg, n, s1) && NoDilution(s0, s1) && NoDilution(s1, s2)
    ensures NoDilution(s0, s2)
  {
    forall p | p in s0.pools ensures p in s2.pools && PoolNotDiluted(s0.pools[p], s2.pools[p]) {
      var a, b, c := s0.pools[p], s1.pools[p], s2.pools[p];
      assert PoolNotDiluted(a, b) && PoolNotDiluted(b, c) && PoolSound(b);
      PerShareTransitive(a.reserveLo * a.reserveHi, a.totalShares, b.reserveLo * b.reserveHi, b.totalShares,
                         c.reserveLo * c.reserveHi, c.totalShares);
    }
  }

  // ------------------------------------------------------- main theorems

  /** In every reachable state and for every unit, what came in and has not
      been paid out is exactly what the tables owe. */
  lemma Conservation(cfg: Config, n: nat, items: seq<Item>, u: Unit)
    requires n >= 1 && ValidConfig(cfg) && AllAttributed(n, items)
    ensures Taken(cfg, n, EMPTY, items, u) - Paid(cfg, n, EMPTY, items, u) == Owed(Run(cfg, n, EMPTY, items), u)
    ensures Paid(cfg, n, EMPTY, items, u) <= Taken(cfg, n, EMPTY, items, u)
  {
    EmptyIsSound(cfg, n);
    RunKeeps(cfg, n, EMPTY, items, u);
    OwedNonNegative(Run(cfg, n, EMPTY, items), u);
  }

  lemma OwedNonNegative(s: Tables, u: Unit)
    ensures Owed(s, u) >= 0
  {
    SumNonNegative(ReserveRows(s.pools, u));
    SumNonNegative(BalanceRows(s.balances, u));
  }

  /** Every reachable pool: reserve product covers squared shares, shares add
      up to the positions plus the burned minimum, and everything fits the cap. */
  lemma ReachablePoolsAreCovered(cfg: Config, n: nat, items: seq<Item>, p: PoolId)
    requires n >= 1 && ValidConfig(cfg) && AllAttributed(n, items)
    requires p in Run(cfg, n, EMPTY, items).pools
    ensures var s := Run(cfg, n, EMPTY, items); var pool := s.pools[p];
            pool.reserveLo * pool.reserveHi >= pool.totalShares * pool.totalShares &&
            pool.totalShares == MINIMUM_LIQUIDITY + SharesIn(s.positions, p) &&
            pool.totalShares <= MAX_RESERVE
  {
    EmptyIsSound(cfg, n);
    RunKeeps(cfg, n, EMPTY, items, 0);
    SharesFitCap(Run(cfg, n, EMPTY, items).pools[p]);
  }

  /** Between any two points of a run, `k_end * S_start^2 >= k_start * S_end^2`. */
  lemma BackingPerShareNeverFalls(cfg: Config, n: nat, before: seq<Item>, after: seq<Item>, p: PoolId)
    requires n >= 1 && ValidConfig(cfg) && AllAttributed(n, before) && AllAttributed(n, after)
    requires p in Run(cfg, n, EMPTY, before).pools
    ensures var start := Run(cfg, n, EMPTY, before); var end := Run(cfg, n, start, after);
            p in end.pools &&
            (end.pools[p].reserveLo * end.pools[p].reserveHi) * (start.pools[p].totalShares * start.pools[p].totalShares)
              >= (start.pools[p].reserveLo * start.pools[p].reserveHi) * (end.pools[p].totalShares * end.pools[p].totalShares)
  {
    hide Run, PoolsSound, SharesAddUp, BalancesBounded, VotesAdmitted, ValidConfig;
    EmptyIsSound(cfg, n);
    RunKeeps(cfg, n, EMPTY, before, 0);
    var start := Run(cfg, n, EMPTY, before);
    RunKeeps(cfg, n, start, after, 0);
    assert PoolNotDiluted(start.pools[p], Run(cfg, n, start, after).pools[p]);
  }

  /** Every value the audit negates into an `i64` fits it. */
  lemma AuditConversionsAreTotal(cfg: Config, n: nat, items: seq<Item>)
    requires n >= 1 && ValidConfig(cfg) && AllAttributed(n, items)
    ensures var s := Run(cfg, n, EMPTY, items);
            (forall p :: p in s.pools ==> s.pools[p].reserveLo <= MAX_RESERVE < I64_MAX && s.pools[p].reserveHi <= MAX_RESERVE) &&
            (forall k :: k in s.balances ==> 1 <= s.balances[k].amount <= MAX_RESERVE)
  {
    EmptyIsSound(cfg, n);
    RunKeeps(cfg, n, EMPTY, items, 0);
  }

  // ---------------------------------------------------------- dead guards

  /** A swap on a sound state is accepted exactly when the quote stands, the
      proof of possession verifies, the quote meets `min_out` and the recipient
      stays within the balance cap; it then settles at the quoted amount. */
  lemma QuoteIsSettlement(cfg: Config, n: nat, s: Tables, o: Output, id: PoolId)
    requires Inv(cfg, n, s) && o.SwapV0? && MakePoolId(o.unitIn, o.unitOut) == Some(id) && id in s.pools
    ensures var quote := QuoteSwap(cfg, n, s.votes, s.pools[id], id, o.unitIn, o.amountIn, None);
            var key := BalanceKey(o.recipient, o.unitOut);
            var held := if key in s.balances then s.balances[key].amount else 0;
            var (s', r) := SwapStep(cfg, n, s, o);
            (r.Ok? <==> quote.Ok? && o.proven && o.minOut <= quote.value.dy && held + quote.value.dy <= MAX_RESERVE) &&
            (r.Ok? ==> key in s'.balances && s'.balances[key].amount == held + quote.value.dy &&
                       s'.pools[id].reserveLo == (if o.unitIn == id.lo then s.pools[id].reserveLo + o.amountIn
                                                  else s.pools[id].reserveLo - quote.value.dy) &&
                       s'.pools[id].reserveHi == (if o.unitIn == id.lo then s.pools[id].reserveHi - quote.value.dy
                                                  else s.pools[id].reserveHi + o.amountIn))
  {
    hide AmountOut, ConsensusFee, KNonDecreasing, ValidConfig, SharesAddUp, VotesAdmitted, BalancesBounded;
    var quote := QuoteSwap(cfg, n, s.votes, s.pools[id], id, o.unitIn, o.amountIn, None);
    PoolBounds(s.pools[id]);
    if quote.Ok? {
      SettledKHolds(quote.value.reserveIn, quote.value.reserveOut, o.amountIn, ConsensusFee(cfg, n, s.votes, id), quote.value.dy);
    }
  }

  /** The settlement backstop never fires. */
  lemma SettledKHolds(a: u64, b: u64, x: u64, fee: u16, y: u64)
    requires AmountOut(a, b, x, fee) == Ok(y) && a + x <= MAX_RESERVE
    ensures KNonDecreasing(a, b, a + x, b - y)
  {
    hide AmountOut;
    SwapKeepsK(a, b, x, fee);
  }

  /** The only ways a swap into an existing pool of a sound state is refused. */
  lemma SwapRefusals(cfg: Config, n: nat, s: Tables, o: Output)
    requires Inv(cfg, n, s) && o.SwapV0? && SwapStep(cfg, n, s, o).1.Err?
    ensures SwapStep(cfg, n, s, o).1.error in
            {InvalidProofOfPossession, IdenticalUnits, NoSuchPool, UnknownUnit, BelowMinSwapIn, SlippageExceeded,
             OverReserveCap, Curve(OutputRoundsToZero)}
  {
    hide ConsensusFee, AmountOut, KNonDecreasing, SharesAddUp, VotesAdmitted, BalancesBounded;
    var made := MakePoolId(o.unitIn, o.unitOut);
    if o.proven && made.Some? && made.value in s.pools {
      var id := made.value;
      var pool := s.pools[id];
      PoolBounds(pool);
      var fee := ConsensusFee(cfg, n, s.votes, id);
      if o.amountIn >= 1 {
        if o.unitIn == id.lo { AmountOutRefusals(pool.reserveLo, pool.reserveHi, o.amountIn, fee); }
        else { AmountOutRefusals(pool.reserveHi, pool.reserveLo, o.amountIn, fee); }
      }
      var quote := QuoteSwap(cfg, n, s.votes, pool, id, o.unitIn, o.amountIn, Some(o.minOut));
      if quote.Ok? { SettledKHolds(quote.value.reserveIn, quote.value.reserveOut, o.amountIn, fee, quote.value.dy); }
    }
  }

  lemma AmountOutRefusals(a: u64, b: u64, x: u64, fee: u16)
    requires InCap(a) && InCap(b) && x >= 1 && fee < 1000
    ensures AmountOut(a, b, x, fee).Err? ==> AmountOut(a, b, x, fee).error in {ReserveCapExceeded, OutputRoundsToZero}
  {
    if x <= MAX_RESERVE { PayoutIsLargest(a, b, x, fee); }
  }

  /** Minting on a covered pool never overflows: the new total stays covered. */
  lemma MintNeverOverflows(pool: Pool, da: u64, db: u64)
    requires PoolSound(pool) || pool == Pool(0, 0, 0)
    ensures MintShares(pool.reserveLo, pool.reserveHi, pool.totalShares, da, db).Err? ==>
            var e := MintShares(pool.reserveLo, pool.reserveHi, pool.totalShares, da, db).error;
            e in {ZeroAmount, ReserveCapExceeded} ||
            (e == InsufficientInitialLiquidity && pool.totalShares == 0) || (e == OutputRoundsToZero && pool.totalShares > 0)
  {
    if da >= 1 && db >= 1 && pool.reserveLo + da <= MAX_RESERVE && pool.reserveHi + db <= MAX_RESERVE {
      if pool.totalShares == 0 { FirstMintRoot(da, db); } else { LaterMintFits(pool, da, db); }
    }
  }

  lemma LaterMintFits(pool: Pool, da: u64, db: u64)
    requires PoolSound(pool) && pool.reserveLo + da <= MAX_RESERVE && pool.reserveHi + db <= MAX_RESERVE
    ensures var s := pool.totalShares;
            s > 0 && pool.reserveLo > 0 && pool.reserveHi > 0 &&
            s + Min(da * s / pool.reserveLo, db * s / pool.reserveHi) <= MAX_RESERVE
  {
    var a, b, s := pool.reserveLo, pool.reserveHi, pool.totalShares;
    PoolBounds(pool);
    MulBoth(0, da, 0, s);
    MulBoth(0, db, 0, s);
    DivFloor(da * s, a);
    DivFloor(db * s, b);
    var m := Min(da * s / a, db * s / b);
    MulMono(m, da * s / a, a);
    MulMono(m, db * s / b, b);
    FairSharesFit(a, b, s, da, db, m);
  }

  lemma FairSharesFit(a: u64, b: u64, s: u64, da: u64, db: u64, m: nat)
    requires s > 0 && s * s <= a * b && a + da <= MAX_RESERVE && b + db <= MAX_RESERVE
    requires m * a <= da * s && m * b <= db * s
    ensures s + m <= MAX_RESERVE
  {
    var q := s + m;
    assert (a + da) * s == a * s + da * s && a * q == a * s + m * a;
    assert (b + db) * s == b * s + db * s && b * q == b * s + m * b;
    PerShareFromSides(a, b, s, a + da, b + db, q);
    MulBoth(0, q, 0, q);
    MulMonoStrict(0, s, s);
    MulMono(s * s, a * b, q * q);
    assert (s * s) * (q * q) == (q * q) * (s * s);
    MulCancel(q * q, (a + da) * (b + db), s * s);
    MulBoth(a + da, MAX_RESERVE, b + db, MAX_RESERVE);
    SquareMono(q, MAX_RESERVE);
  }

  /** The only ways a deposit on a sound state is refused. */
  lemma DepositRefusals(cfg: Config, n: nat, s: Tables, o: Output)
    requires Inv(cfg, n, s) && o.DepositV0? && DepositStep(cfg, s, o).1.Err?
    ensures DepositStep(cfg, s, o).1.error in
              {InvalidProofOfPossession, UnknownUnit, OverReserveCap, SlippageExceeded, Curve(ZeroAmount)} ||
            DepositStep(cfg, s, o).1.error == Curve(if o.pool in s.pools then OutputRoundsToZero else InsufficientInitialLiquidity)
  {
    hide MintShares, SharesIn, VotesAdmitted, BalancesBounded, ValidConfig;
    var pool, key := PoolOrEmpty(s, o.pool), LpKey(o.pool, o.owner);
    MintNeverOverflows(pool, o.amountLo, o.amountHi);
    if pool.totalShares == 0 { assert o.pool !in s.pools; }
    var minted := MintShares(pool.reserveLo, pool.reserveHi, pool.totalShares, o.amountLo, o.amountHi);
    if minted.Ok? {
      MintBounds(pool, o.amountLo, o.amountHi);
      MintedPoolIsSound(pool, o.pool in s.pools, o.amountLo, o.amountHi, minted.value);
      SharesFitCap(Pool(pool.reserveLo + o.amountLo, pool.reserveHi + o.amountHi, minted.value.newTotalShares));
      HeldWithinTotal(cfg, n, s, key);
    }
  }

  lemma MintBounds(pool: Pool, da: u64, db: u64)
    requires MintShares(pool.reserveLo, pool.reserveHi, pool.totalShares, da, db).Ok?
    ensures 1 <= da && 1 <= db && pool.reserveLo + da <= MAX_RESERVE && pool.reserveHi + db <= MAX_RESERVE
  {
  }

  lemma HeldWithinTotal(cfg: Config, n: nat, s: Tables, key: LpKey)
    requires Inv(cfg, n, s)
    ensures key.pool in s.pools ==> SharesHeld(s, key) <= s.pools[key.pool].totalShares - MINIMUM_LIQUIDITY
    ensures key.pool !in s.pools ==> SharesHeld(s, key) == 0
  {
    if key in s.positions { PositionWithinTotal(s.positions, key); }
    else if key.pool in s.pools { SumNonNegative(ShareRows(s.positions, key.pool)); }
  }

  /** No position can get stuck: burning any part of it up to all of it is
      refused only by the caller's own payout bounds, and pays at least the
      burned share count on one side. */
  lemma EveryPositionIsRedeemable(cfg: Config, n: nat, s: Tables, i: Input)
    requires Inv(cfg, n, s) && i.WithdrawV0? && LpKey(i.pool, i.owner) in s.positions
    requires 1 <= i.shares <= s.positions[LpKey(i.pool, i.owner)].shares
    ensures i.pool in s.pools
    ensures var pool := s.pools[i.pool];
            var burn := BurnShares(pool.reserveLo, pool.reserveHi, pool.totalShares, i.shares);
            burn.Ok? && (burn.value.da >= i.shares || burn.value.db >= i.shares) &&
            WithdrawStep(s, i).1 ==
              if i.minLo <= burn.value.da <= i.maxLo && i.minHi <= burn.value.db <= i.maxHi
              then Ok(Payout(i.pool, burn.value.da, burn.value.db)) else Err(PayoutOutsideBounds)
  {
    hide BurnShares, PoolSound, SharesIn, ValidConfig, VotesAdmitted, BalancesBounded;
    HeldWithinTotal(cfg, n, s, LpKey(i.pool, i.owner));
    BurnPaysBack(s.pools[i.pool], i.shares);
  }

  lemma BurnPaysBack(pool: Pool, shares: u64)
    requires PoolSound(pool) && 1 <= shares <= pool.totalShares
    ensures var burn := BurnShares(pool.reserveLo, pool.reserveHi, pool.totalShares, shares);
            burn.Ok? && (burn.value.da >= shares || burn.value.db >= shares)
  {
    SharesFitCap(pool);
    ProRata(pool.reserveLo, pool.totalShares, shares);
    ProRata(pool.reserveHi, pool.totalShares, shares);
    hide PoolSound;
  }

  /** A floored pro-rata part is at most the whole, and at least the part's
      share count when the whole is at least the total. */
  lemma ProRata(r: nat, s: nat, n: nat)
    requires n <= s && 0 < s
    ensures 0 <= r * n / s <= r
    ensures r >= s ==> r * n / s >= n
  {
    MulBoth(0, r, n, s);
    MulBoth(n, s, r, r);
    assert n * r == r * n && s * r == r * s;
    DivFloor(r * n, s);
    DivAtMost(r * n, s, r);
    if r >= s {
      MulMono(s, r, n);
      assert s * n == n * s;
      DivAtLeast(r * n, s, n);
    }
  }

  /** The only ways a withdrawal on a sound state is refused. */
  lemma WithdrawRefusals(cfg: Config, n: nat, s: Tables, i: Input)
    requires Inv(cfg, n, s) && i.WithdrawV0?
    ensures var key := LpKey(i.pool, i.owner); var r := WithdrawStep(s, i).1;
            (i.pool !in s.pools <==> r == Err(InputNoSuchPool)) &&
            (i.pool in s.pools && key !in s.positions <==> r == Err(NoSuchPosition)) &&
            (key in s.positions && i.shares > s.positions[key].shares <==> r == Err(NotEnoughShares)) &&
            (key in s.positions && i.shares == 0 <==> r == Err(InputCurve(ZeroAmount))) &&
            (key in s.positions && 1 <= i.shares <= s.positions[key].shares <==> r.Ok? || r == Err(PayoutOutsideBounds))
  {
    var key := LpKey(i.pool, i.owner);
    if key in s.positions && 1 <= i.shares <= s.positions[key].shares {
      hide BurnShares, PoolSound, SharesIn, ValidConfig;
      EveryPositionIsRedeemable(cfg, n, s, i);
    } else {
      hide PoolSound, SharesIn, ValidConfig;
    }
  }
}
