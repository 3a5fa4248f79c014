/**
 The guardian's module instance: five tables, written step by step in the
 order the server writes them. Every method is proved to leave exactly the
 tables and the answer of the ledger function for its item; in particular a
 refused item leaves every table as it was without help from a rollback.
 */
module AmmServer {
  import opened Basics
  import opened Curve
  import opened CurveTheorems
  import opened Ledger
  import opened LedgerInvariants
  import opened LedgerRuns

  datatype ConfigError = NoUnits | InvalidFee | ZeroMinSwapIn | UnknownUnitInOverride | InvertedFeeBand

  /** The check made when a federation is set up: it passes exactly the
      configurations every result about the ledger starts from. */
  method Validate(cfg: Config) returns (r: Result<(), ConfigError>)
    ensures r.Ok? <==> ValidConfig(cfg)
    ensures r == Err(NoUnits) <==> cfg.units == map[]
    ensures r == Err(ZeroMinSwapIn) <==>
              cfg.units != map[] && cfg.defaultFee < 1000 && cfg.minFee <= cfg.maxFee < 1000 &&
              exists u :: u in cfg.units && cfg.units[u] == 0
    ensures r == Err(InvertedFeeBand) <==>
              cfg.units != map[] && cfg.defaultFee < 1000 && cfg.maxFee < 1000 && cfg.minFee > cfg.maxFee
  {
    if cfg.units == map[] { return Err(NoUnits); }
    if cfg.defaultFee >= 1000 { return Err(ConfigError.InvalidFee); }
    if cfg.maxFee >= 1000 { return Err(ConfigError.InvalidFee); }
    if cfg.minFee > cfg.maxFee { return Err(InvertedFeeBand); }
    var units := cfg.units.Keys;
    while units != {}
      invariant units <= cfg.units.Keys
      invariant forall u :: u in cfg.units && u !in units ==> cfg.units[u] != 0
      decreases units
    {
      var u :| u in units;
      if cfg.units[u] == 0 { return Err(ZeroMinSwapIn); }
      units := units - {u};
    }
    var overrides := cfg.feeOverrides.Keys;
    while overrides != {}
      invariant overrides <= cfg.feeOverrides.Keys
      invariant forall p :: p in cfg.feeOverrides && p !in overrides ==>
                  cfg.feeOverrides[p] < 1000 && p.lo in cfg.units && p.hi in cfg.units
      decreases overrides
    {
      var p :| p in overrides;
      if cfg.feeOverrides[p] >= 1000 { return Err(ConfigError.InvalidFee); }
      if p.lo !in cfg.units || p.hi !in cfg.units { return Err(UnknownUnitInOverride); }
      overrides := overrides - {p};
    }
    r := Ok(());
  }

  /** The tables and the answer are those of the input step, and an accepted
      input must be signed by the given key. */
  predicate Answers(s: Tables, r: Result<InputMeta, InputError>, step: (Tables, Result<Amounts, InputError>), signer: Option<PubKey>) {
    s == step.0 && (r.Ok? <==> step.1.Ok?) &&
    (r.Err? ==> step.1 == Err(r.error)) && (r.Ok? ==> step.1 == Ok(r.value.amounts) && signer == Some(r.value.pubKey))
  }

  class Amm {
    const cfg: Config
    const numPeers: nat
    const ourPeer: PeerId
    var pools: map<PoolId, Pool>
    var positions: map<LpKey, Position>
    var balances: map<BalanceKey, Balance>
    var votes: map<VoteKey, u16>
    var desired: map<PoolId, u16>

    function View(): Tables
      reads this
    {
      Tables(pools, positions, balances, votes, desired)
    }

    ghost predicate Valid()
      reads this
    {
      Inv(cfg, numPeers, View()) && ourPeer < numPeers
    }

    constructor (cfg: Config, numPeers: nat, ourPeer: PeerId)
      requires ValidConfig(cfg) && ourPeer < numPeers
      ensures Valid() && View() == EMPTY
      ensures this.cfg == cfg && this.numPeers == numPeers && this.ourPeer == ourPeer
    {
      this.cfg, this.numPeers, this.ourPeer := cfg, numPeers, ourPeer;
      pools, positions, balances, votes, desired := map[], map[], map[], map[], map[];
      new;
      EmptyIsSound(cfg, numPeers);
    }

    /** A fee vote is written before it is known to be redundant. */
    method ProcessConsensusItem(item: ConsensusItem, peer: PeerId) returns (r: Result<(), VoteError>)
      requires Valid() && peer < numPeers
      modifies this`votes
      ensures Valid()
      ensures (View(), r) == VoteStep(cfg, old(View()), item, peer)
      ensures r.Err? ==> View() == old(View())
    {
      hide Inv;
      ghost var before := View();
      VoteKeeps(cfg, numPeers, before, item, peer);
      match item {
        case UnknownItem => r := Err(UnknownItemVariant);
        case FeeVoteV0(pool, fee) =>
          if !FeeInBand(cfg, fee) { r := Err(OutsideBand); }
          else if pool !in pools { r := Err(VoteNoSuchPool); }
          else {
            var key := VoteKey(pool, peer);
            var previous := if key in votes then Some(votes[key]) else None;
            votes := votes[key := fee];
            r := if previous == Some(fee) then Err(Redundant) else Ok(());
            assert previous == Some(fee) ==> votes == before.votes;
          }
      }
    }

    method ProcessInput(input: Input) returns (r: Result<InputMeta, InputError>)
      requires Valid()
      modifies this`pools, this`positions, this`balances
      ensures Valid()
      ensures Answers(View(), r, InputStep(old(View()), input), SignerOf(input))
      ensures r.Err? ==> View() == old(View())
    {
      ghost var before := View();
      ItemKeeps(cfg, numPeers, before, InputItem(input));
      match input {
        case ClaimBalanceV0(pubkey, unit) => r := Claim(pubkey, unit);
        case WithdrawV0(_, _, _, _, _, _, _) => r := Withdraw(input);
        case UnknownInput => r := Err(UnknownInputVariant);
      }
    }

    method Claim(pubkey: PubKey, unit: Unit) returns (r: Result<InputMeta, InputError>)
      modifies this`balances
      ensures Answers(View(), r, ClaimStep(old(View()), ClaimBalanceV0(pubkey, unit)), Some(pubkey))
    {
      var key := BalanceKey(pubkey, unit);
      if key !in balances { return Err(NoSuchBalance); }
      var entry := balances[key];
      balances := balances - {key};
      r := Ok(InputMeta(map[unit := entry.amount], pubkey));
    }

    method Withdraw(i: Input) returns (r: Result<InputMeta, InputError>)
      requires i.WithdrawV0?
      modifies this`pools, this`positions
      ensures Answers(View(), r, WithdrawStep(old(View()), i), Some(i.owner))
    {
      if i.pool !in pools { return Err(InputNoSuchPool); }
      var pool := pools[i.pool];
      var key := LpKey(i.pool, i.owner);
      if key !in positions { return Err(NoSuchPosition); }
      var position := positions[key];
      if i.shares > position.shares { return Err(NotEnoughShares); }
      var burn := BurnShares(pool.reserveLo, pool.reserveHi, pool.totalShares, i.shares);
      if burn.Err? { return Err(MapCurveErrorInput(burn.error)); }
      var b := burn.value;
      if b.da < i.minLo || b.db < i.minHi || b.da > i.maxLo || b.db > i.maxHi { return Err(PayoutOutsideBounds); }
      BurnIsFloored(pool.reserveLo, pool.reserveHi, pool.totalShares, i.shares);
      hide BurnShares;
      var legLo := AddUnit(map[], b.da, i.pool.lo);
      var legs := if legLo.Some? then AddUnit(legLo.value, b.db, i.pool.hi) else None;
      assert legs == Some(Payout(i.pool, b.da, b.db));
      pool := pool.(reserveLo := pool.reserveLo - b.da);
      pool := pool.(reserveHi := pool.reserveHi - b.db);
      pool := pool.(totalShares := b.newTotalShares);
      pools := pools[i.pool := pool];
      position := position.(shares := position.shares - i.shares);
      if position.shares == 0 { positions := positions - {key}; } else { positions := positions[key := position]; }
      r := Ok(InputMeta(legs.value, i.owner));
    }

    method ProcessOutput(output: Output) returns (r: Result<Amounts, OutputError>)
      requires Valid()
      modifies this`pools, this`positions, this`balances
      ensures Valid()
      ensures (View(), r) == OutputStep(cfg, numPeers, old(View()), output)
      ensures r.Err? ==> View() == old(View())
    {
      ghost var before := View();
      ItemKeeps(cfg, numPeers, before, OutputItem(output));
      if !VerifyPop(output) { return Err(InvalidProofOfPossession); }
      match output {
        case SwapV0(_, _, _, _, _, _, _) => r := Swap(output);
        case DepositV0(_, _, _, _, _, _, _) => r := Deposit(output);
      }
    }

    method Swap(o: Output) returns (r: Result<Amounts, OutputError>)
      requires numPeers >= 1 && ValidConfig(cfg) && o.SwapV0? && o.proven
      modifies this`pools, this`balances
      ensures (View(), r) == SwapStep(cfg, numPeers, old(View()), o)
    {
      hide AmountOut, ConsensusFee, KNonDecreasing, ValidConfig;
      var made := MakePoolId(o.unitIn, o.unitOut);
      if made.None? { return Err(IdenticalUnits); }
      var id := made.value;
      if id !in pools { return Err(NoSuchPool); }
      var pool := pools[id];
      var quoted := QuoteSwap(cfg, numPeers, votes, pool, id, o.unitIn, o.amountIn, Some(o.minOut));
      if quoted.Err? { return Err(quoted.error); }
      var q := quoted.value;
      hide QuoteSwap;
      var reserveOutNew := q.reserveOut - q.dy;
      if !KNonDecreasing(q.reserveIn, q.reserveOut, q.reserveInNew, reserveOutNew) { return Err(KInvariantViolated); }
      var key := BalanceKey(o.recipient, o.unitOut);
      var credited := q.dy;
      if key in balances {
        credited := balances[key].amount + q.dy;
        if credited > MAX_RESERVE { return Err(OverReserveCap); }
      }
      if q.inIsLo {
        pool := pool.(reserveLo := q.reserveInNew);
        pool := pool.(reserveHi := reserveOutNew);
      } else {
        pool := pool.(reserveHi := q.reserveInNew);
        pool := pool.(reserveLo := reserveOutNew);
      }
      pools := pools[id := pool];
      balances := balances[key := Balance(credited, o.tweak)];
      r := Ok(map[o.unitIn := o.amountIn]);
    }

    /** One step can still fail on paper after the tables are written; it never does. */
    method Deposit(o: Output) returns (r: Result<Amounts, OutputError>)
      requires o.DepositV0? && o.proven
      modifies this`pools, this`positions
      ensures (View(), r) == DepositStep(cfg, old(View()), o)
    {
      hide MintShares;
      if o.pool.lo !in cfg.units || o.pool.hi !in cfg.units { return Err(UnknownUnit); }
      var pool := if o.pool in pools then pools[o.pool] else Pool(0, 0, 0);
      var minted := MintShares(pool.reserveLo, pool.reserveHi, pool.totalShares, o.amountLo, o.amountHi);
      if minted.Err? { return Err(MapCurveError(minted.error)); }
      MintBounds(pool, o.amountLo, o.amountHi);
      var m := minted.value;
      if m.toOwner < o.minShares { return Err(SlippageExceeded); }
      var key := LpKey(o.pool, o.owner);
      var held := if key in positions then positions[key].shares else 0;
      if held + m.toOwner > U64_MAX { return Err(Curve(Overflow)); }
      pool := pool.(reserveLo := pool.reserveLo + o.amountLo);
      pool := pool.(reserveHi := pool.reserveHi + o.amountHi);
      pool := pool.(totalShares := m.newTotalShares);
      pools := pools[o.pool := pool];
      positions := positions[key := Position(held + m.toOwner, o.tweak)];
      var legLo := AddUnit(map[], o.amountLo, o.pool.lo);
      var legs := if legLo.Some? then AddUnit(legLo.value, o.amountHi, o.pool.hi) else None;
      r := if legs.Some? then Ok(legs.value) else Err(OverReserveCap);
    }

    /** The guardian's own intent, checked before it is stored. */
    method SubmitFeeVote(pool: PoolId, fee: u16) returns (ok: bool)
      requires Valid()
      modifies this`desired
      ensures Valid() && View() == IntentStep(cfg, old(View()), pool, fee)
      ensures ok <==> FeeInBand(cfg, fee) && pool in pools
    {
      ghost var before := View();
      ok := FeeInBand(cfg, fee) && pool in pools;
      if ok { desired := desired[pool := fee]; }
      ItemKeeps(cfg, numPeers, before, IntentItem(pool, fee));
    }

    /** Proposes a vote for exactly the pools whose recorded vote of ours is
        not what we want, each pool once. */
    method ConsensusProposal() returns (items: seq<ConsensusItem>)
      requires Valid()
      ensures forall k :: 0 <= k < |items| ==> items[k].FeeVoteV0?
      ensures forall j, k :: 0 <= j < k < |items| ==> items[j].pool != items[k].pool
      ensures forall item :: item in items <==> Wanted(View(), ourPeer, item)
    {
      hide Inv;
      items := [];
      var left := desired.Keys;
      while left != {}
        invariant left <= desired.Keys
        invariant forall k :: 0 <= k < |items| ==> items[k].FeeVoteV0? && items[k].pool !in left
        invariant forall j, k :: 0 <= j < k < |items| ==> items[j].pool != items[k].pool
        invariant forall item :: item in items <==> Wanted(View(), ourPeer, item) && item.pool !in left
        decreases left
      {
        var pool :| pool in left;
        left := left - {pool};
        if pool in pools {
          var key := VoteKey(pool, ourPeer);
          var recorded := if key in votes then Some(votes[key]) else None;
          if recorded != Some(desired[pool]) { items := items + [FeeVoteV0(pool, desired[pool])]; }
        }
      }
    }
  }

  lemma VoteKeeps(cfg: Config, n: nat, s: Tables, item: ConsensusItem, peer: PeerId)
    requires Inv(cfg, n, s) && peer < n
    ensures Inv(cfg, n, VoteStep(cfg, s, item, peer).0)
  {
    hide Inv, VoteStep;
    ItemKeeps(cfg, n, s, VoteItem(item, peer));
    InvParts(cfg, n, s);
  }

  /** Our intent for an existing pool that consensus has not recorded yet. */
  predicate Wanted(s: Tables, peer: PeerId, item: ConsensusItem) {
    && item.FeeVoteV0?
    && item.pool in s.desired && item.fee == s.desired[item.pool]
    && item.pool in s.pools
    && !(VoteKey(item.pool, peer) in s.votes && s.votes[VoteKey(item.pool, peer)] == item.fee)
  }

  function VoteAll(cfg: Config, s: Tables, items: seq<ConsensusItem>, peer: PeerId): Tables
    decreases |items|
  {
    if items == [] then s else VoteAll(cfg, VoteStep(cfg, s, items[0], peer).0, items[1..], peer)
  }

  /** Nothing proposed is ever refused, and once every proposal is ordered
      there is nothing left to propose and every intent is the recorded vote: a
      vote that did not land is proposed again until it does. */
  lemma {:induction false} ProposalsLandAndDrain(cfg: Config, n: nat, s: Tables, items: seq<ConsensusItem>, peer: PeerId)
    requires Inv(cfg, n, s) && peer < n
    requires forall item :: item in items <==> Wanted(s, peer, item)
    requires forall j, k :: 0 <= j < k < |items| ==> items[j] != items[k]
    ensures forall k :: 0 <= k < |items| ==> VoteStep(cfg, VoteAll(cfg, s, items[..k], peer), items[k], peer).1.Ok?
    ensures forall item :: !Wanted(VoteAll(cfg, s, items, peer), peer, item)
    ensures forall p :: p in s.desired ==>
              var votes := VoteAll(cfg, s, items, peer).votes; VoteKey(p, peer) in votes && votes[VoteKey(p, peer)] == s.desired[p]
    decreases |items|
  {
    hide Inv, VoteStep, Wanted;
    if items == [] {
      forall p | p in s.desired ensures VoteKey(p, peer) in s.votes && s.votes[VoteKey(p, peer)] == s.desired[p] {
        assert !Wanted(s, peer, FeeVoteV0(p, s.desired[p]));
        UnwantedIsRecorded(cfg, n, s, peer, p);
      }
    } else {
      assert items[0] in items;
      VoteKeeps(cfg, n, s, items[0], peer);
      VoteLands(cfg, n, s, items[0], peer);
      var s1 := VoteStep(cfg, s, items[0], peer).0;
      forall item ensures item in items[1..] <==> Wanted(s1, peer, item) {
        assert item in items <==> item == items[0] || item in items[1..];
      }
      ProposalsLandAndDrain(cfg, n, s1, items[1..], peer);
      forall k | 0 <= k < |items| ensures VoteStep(cfg, VoteAll(cfg, s, items[..k], peer), items[k], peer).1.Ok? {
        if k > 0 { assert items[..k][1..] == items[1..][..k - 1] && items[k] == items[1..][k - 1]; }
      }
    }
  }

  lemma UnwantedIsRecorded(cfg: Config, n: nat, s: Tables, peer: PeerId, p: PoolId)
    requires Inv(cfg, n, s) && p in s.desired && !Wanted(s, peer, FeeVoteV0(p, s.desired[p]))
    ensures VoteKey(p, peer) in s.votes && s.votes[VoteKey(p, peer)] == s.desired[p]
  {
    hide PoolsSound, SharesAddUp, BalancesBounded, ValidConfig;
  }

  /** An ordered proposal is accepted and stops being wanted; the others stay
      as they were. */
  lemma VoteLands(cfg: Config, n: nat, s: Tables, item: ConsensusItem, peer: PeerId)
    requires Inv(cfg, n, s) && Wanted(s, peer, item)
    ensures var (s1, r) := VoteStep(cfg, s, item, peer);
            r.Ok? && s1.desired == s.desired && forall other :: Wanted(s1, peer, other) <==> Wanted(s, peer, other) && other != item
  {
    hide PoolsSound, SharesAddUp, BalancesBounded, ValidConfig;
  }
}
