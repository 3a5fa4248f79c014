/**
 The guardian-voted fee under Byzantine guardians: when the aggregated fee is
 bracketed by votes of non-faulty guardians, and exactly when it is not.
 */
module FeeVotes {
  import opened Basics
  import opened Ledger
  import opened LedgerInvariants
  import opened Rank

  ghost predicate VotesInBand(cfg: Config, votes: map<VoteKey, u16>) {
    forall k :: k in votes ==> FeeInBand(cfg, votes[k])
  }

  function VoteCount(votes: map<VoteKey, u16>, pool: PoolId, n: nat): nat {
    |VotesFor(votes, pool, n)|
  }

  /** A non-faulty guardian voted, on the given side of the fee. */
  ghost predicate HonestVote(votes: map<VoteKey, u16>, pool: PoolId, n: nat, faulty: set<PeerId>, fee: int, below: bool) {
    exists p: PeerId :: HonestVoter(votes, pool, n, faulty, p) && OnSide(votes[VoteKey(pool, p)], fee, below)
  }

  predicate HonestVoter(votes: map<VoteKey, u16>, pool: PoolId, n: nat, faulty: set<PeerId>, p: PeerId) {
    p < n && p !in faulty && VoteKey(pool, p) in votes
  }

  /** Which recorded votes came from faulty guardians, in peer order. */
  ghost function FaultyVotes(votes: map<VoteKey, u16>, pool: PoolId, n: nat, faulty: set<PeerId>): seq<bool> {
    if n == 0 then []
    else
      var rest := FaultyVotes(votes, pool, n - 1, faulty);
      if VoteKey(pool, n - 1) in votes then rest + [(n - 1) in faulty] else rest
  }

  lemma {:induction false} CountFaultyAppend(s: seq<bool>, b: bool)
    ensures CountFaulty(s + [b]) == CountFaulty(s) + (if b then 1 else 0)
  {
    if s == [] {
      assert s + [b] == [b];
    } else {
      CountFaultyAppend(s[1..], b);
      assert (s + [b])[1..] == s[1..] + [b];
    }
  }

  lemma {:induction false} FaultyVotesFew(votes: map<VoteKey, u16>, pool: PoolId, n: nat, faulty: set<PeerId>)
    ensures |FaultyVotes(votes, pool, n, faulty)| == VoteCount(votes, pool, n)
    ensures CountFaulty(FaultyVotes(votes, pool, n, faulty)) <= |faulty|
  {
    if n > 0 {
      var seen := faulty - {n - 1};
      FaultyVotesFew(votes, pool, n - 1, seen);
      FaultyVotesLocal(votes, pool, n - 1, faulty, seen);
      CountFaultyAppend(FaultyVotes(votes, pool, n - 1, faulty), (n - 1) in faulty);
    }
  }

  lemma {:induction false} FaultyVotesLocal(votes: map<VoteKey, u16>, pool: PoolId, n: nat, a: set<PeerId>, b: set<PeerId>)
    requires forall p: PeerId :: p < n ==> (p in a <==> p in b)
    ensures FaultyVotes(votes, pool, n, a) == FaultyVotes(votes, pool, n, b)
  {
    if n > 0 { FaultyVotesLocal(votes, pool, n - 1, a, b); }
  }

  /** Every position of the vote sequence is some peer's recorded vote. */
  lemma {:induction false} VoteAt(votes: map<VoteKey, u16>, pool: PoolId, n: nat, faulty: set<PeerId>, i: nat)
    requires i < VoteCount(votes, pool, n)
    requires |FaultyVotes(votes, pool, n, faulty)| == VoteCount(votes, pool, n)
    ensures exists p: PeerId :: p < n && VoteKey(pool, p) in votes && votes[VoteKey(pool, p)] == VotesFor(votes, pool, n)[i] &&
              FaultyVotes(votes, pool, n, faulty)[i] == (p in faulty)
  {
    FaultyVotesFew(votes, pool, n - 1, faulty);
    if i < VoteCount(votes, pool, n - 1) {
      VoteAt(votes, pool, n - 1, faulty, i);
    } else {
      assert VoteKey(pool, n - 1) in votes;
    }
  }

  /** More votes on one side than faulty guardians: an honest one is there. */
  lemma HonestVoteOnSide(votes: map<VoteKey, u16>, pool: PoolId, n: nat, faulty: set<PeerId>, fee: int, below: bool)
    requires CountSide(VotesFor(votes, pool, n), fee, below) > |faulty|
    ensures HonestVote(votes, pool, n, faulty, fee, below)
  {
    var vs, fs := VotesFor(votes, pool, n), FaultyVotes(votes, pool, n, faulty);
    FaultyVotesFew(votes, pool, n, faulty);
    HonestOnSide(vs, fs, fee, below);
    var i :| 0 <= i < |vs| && !fs[i] && OnSide(vs[i], fee, below);
    VoteAt(votes, pool, n, faulty, i);
    var p: PeerId :| p < n && VoteKey(pool, p) in votes && votes[VoteKey(pool, p)] == vs[i] && fs[i] == (p in faulty);
    assert HonestVoter(votes, pool, n, faulty, p);
  }

  /** With enough votes the fee is the vote at rank `threshold - 1`. */
  lemma FeeIsRankedVote(cfg: Config, n: nat, votes: map<VoteKey, u16>, pool: PoolId)
    requires n >= 1 && ValidConfig(cfg) && VotesInBand(cfg, votes) && VoteCount(votes, pool, n) >= Threshold(n)
    ensures var vs := VotesFor(votes, pool, n);
            |Sort(vs)| == |vs| && ConsensusFee(cfg, n, votes, pool) == Sort(vs)[Threshold(n) - 1]
  {
    var vs := VotesFor(votes, pool, n);
    RankBounds(vs, Threshold(n) - 1);
    var q := Sort(vs)[Threshold(n) - 1];
    var i :| 0 <= i < |vs| && vs[i] == q;
    FaultyVotesFew(votes, pool, n, {});
    VoteAt(votes, pool, n, {}, i);
  }

  /** The effective fee, whatever the faulty guardians vote: always in the band;
      the clamped configured fee below a threshold of votes; otherwise at least
      some honest vote, and at most some honest vote once the votes exceed the
      threshold by the number of possible faults (as they do when all voted). */
  lemma EffectiveFeeIsBracketed(cfg: Config, n: nat, s: Tables, pool: PoolId, faulty: set<PeerId>)
    requires Inv(cfg, n, s) && |faulty| <= MaxEvil(n)
    ensures FeeInBand(cfg, ConsensusFee(cfg, n, s.votes, pool))
    ensures VoteCount(s.votes, pool, n) < Threshold(n) ==>
              ConsensusFee(cfg, n, s.votes, pool) == ClampFeeToBand(cfg, FeeFor(cfg, pool))
    ensures VoteCount(s.votes, pool, n) >= Threshold(n) ==>
              HonestVote(s.votes, pool, n, faulty, ConsensusFee(cfg, n, s.votes, pool), true)
    ensures VoteCount(s.votes, pool, n) - Threshold(n) >= MaxEvil(n) ==>
              HonestVote(s.votes, pool, n, faulty, ConsensusFee(cfg, n, s.votes, pool), false)
  {
    hide ConsensusFee, VotesFor, PoolSound, SharesIn, HonestVote;
    if VoteCount(s.votes, pool, n) < Threshold(n) { FewVotes(cfg, n, s.votes, pool); }
    else { RankedFeeIsBracketed(cfg, n, s.votes, pool, faulty); }
  }

  /** Below a threshold of votes the fee is the pool's own override if it has
      one and the default otherwise, raised to the lower limit of the band or
      cut to the upper one. */
  lemma ConfiguredFeeBelowThreshold(cfg: Config, n: nat, votes: map<VoteKey, u16>, pool: PoolId)
    requires n >= 1 && ValidConfig(cfg) && VoteCount(votes, pool, n) < Threshold(n)
    ensures var fee := ConsensusFee(cfg, n, votes, pool);
            (pool in cfg.feeOverrides ==> fee == Max(cfg.minFee, Min(cfg.maxFee, cfg.feeOverrides[pool]))) &&
            (pool !in cfg.feeOverrides ==> fee == Max(cfg.minFee, Min(cfg.maxFee, cfg.defaultFee)))
  {
    hide ConsensusFee, VotesFor;
    FewVotes(cfg, n, votes, pool);
  }

  /** The vote sequence holds one entry per peer that has a vote recorded. */
  lemma {:induction false} VotesAreOnePerVoter(votes: map<VoteKey, u16>, pool: PoolId, n: nat)
    ensures VoteCount(votes, pool, n) == |set p: PeerId | p < n && VoteKey(pool, p) in votes|
  {
    var voters := set p: PeerId | p < n && VoteKey(pool, p) in votes;
    if n > 0 {
      VotesAreOnePerVoter(votes, pool, n - 1);
      var fewer := set p: PeerId | p < n - 1 && VoteKey(pool, p) in votes;
      if VoteKey(pool, n - 1) in votes { assert voters == fewer + {n - 1}; } else { assert voters == fewer; }
    } else {
      assert voters == {};
    }
  }

  lemma FewVotes(cfg: Config, n: nat, votes: map<VoteKey, u16>, pool: PoolId)
    requires n >= 1 && ValidConfig(cfg) && VoteCount(votes, pool, n) < Threshold(n)
    ensures ConsensusFee(cfg, n, votes, pool) == ClampFeeToBand(cfg, FeeFor(cfg, pool))
  {
    SortKeeps(VotesFor(votes, pool, n), 0, true);
  }

  lemma RankedFeeIsBracketed(cfg: Config, n: nat, votes: map<VoteKey, u16>, pool: PoolId, faulty: set<PeerId>)
    requires n >= 1 && ValidConfig(cfg) && VotesInBand(cfg, votes)
    requires VoteCount(votes, pool, n) >= Threshold(n) && |faulty| <= MaxEvil(n)
    ensures HonestVote(votes, pool, n, faulty, ConsensusFee(cfg, n, votes, pool), true)
    ensures VoteCount(votes, pool, n) - Threshold(n) >= MaxEvil(n) ==>
              HonestVote(votes, pool, n, faulty, ConsensusFee(cfg, n, votes, pool), false)
  {
    hide ConsensusFee, HonestVote, CountSide, Sort, ValidConfig, VotesInBand;
    var vs := VotesFor(votes, pool, n);
    FeeIsRankedVote(cfg, n, votes, pool);
    RankBounds(vs, Threshold(n) - 1);
    var fee := ConsensusFee(cfg, n, votes, pool);
    HonestVoteOnSide(votes, pool, n, faulty, fee, true);
    if |vs| - Threshold(n) >= MaxEvil(n) { HonestVoteOnSide(votes, pool, n, faulty, fee, false); }
  }

  // ------------------------------------------- when the upper bracket holds

  /** `m` guardians voted, all in the band, and some honest one voted at least
      the fee, for every choice of votes and of at most `f` faulty guardians. */
  ghost predicate UpperBracketAlways(cfg: Config, n: nat, pool: PoolId, m: nat)
    requires n >= 1 && ValidConfig(cfg)
  {
    forall votes: map<VoteKey, u16>, faulty: set<PeerId> ::
      VotesInBand(cfg, votes) && VoteCount(votes, pool, n) == m && |faulty| <= MaxEvil(n) ==>
        HonestVote(votes, pool, n, faulty, ConsensusFee(cfg, n, votes, pool), false)
  }

  /** The first `honest` peers vote low, the next up to `m` vote high. */
  ghost function LopsidedVotes(pool: PoolId, honest: nat, m: nat, low: u16, high: u16): map<VoteKey, u16> {
    map p: nat | 0 <= p < m :: VoteKey(pool, p) := if p < honest then low else high
  }

  lemma {:induction false} LopsidedVotesFor(pool: PoolId, honest: nat, m: nat, low: u16, high: u16, n: nat)
    requires honest <= m && low < high
    ensures var vs := VotesFor(LopsidedVotes(pool, honest, m, low, high), pool, n);
            |vs| == Min(n, m) && forall i :: 0 <= i < |vs| ==> vs[i] == if i < honest then low else high
  {
    if n > 0 {
      var votes := LopsidedVotes(pool, honest, m, low, high);
      LopsidedVotesFor(pool, honest, m, low, high, n - 1);
      if n - 1 < m { assert VoteKey(pool, n - 1) in votes; }
      else { assert VoteKey(pool, n - 1) !in votes; }
    }
  }

  ghost function Range(a: nat, b: nat): (r: set<PeerId>)
    requires a <= b
    ensures |r| == b - a
    ensures forall p: PeerId :: p in r <==> a <= p < b
    decreases b - a
  {
    if a == b then {} else {a} + Range(a + 1, b)
  }

  /** With fewer spare votes than possible faults, the faulty guardians alone
      can set the fee above every honest vote. */
  lemma FaultyCanLiftFee(cfg: Config, n: nat, pool: PoolId, m: nat)
    requires n >= 1 && ValidConfig(cfg) && cfg.minFee < cfg.maxFee
    requires Threshold(n) <= m <= n && m - Threshold(n) < MaxEvil(n)
    ensures !UpperBracketAlways(cfg, n, pool, m)
  {
    var honest := m - MaxEvil(n);
    var votes := LopsidedVotes(pool, honest, m, cfg.minFee, cfg.maxFee);
    var faulty := Range(honest, m);
    LopsidedVotesFor(pool, honest, m, cfg.minFee, cfg.maxFee, n);
    var vs := VotesFor(votes, pool, n);
    FeeIsRankedVote(cfg, n, votes, pool);
    RankBounds(vs, Threshold(n) - 1);
    var fee := ConsensusFee(cfg, n, votes, pool);
    if fee < cfg.maxFee {
      CountSplit(vs, honest, fee, true);
      CountNone(vs[honest..], fee, true);
      CountAtMost(vs[..honest], fee, true);
    }
    assert fee == cfg.maxFee;
    forall p: PeerId | HonestVoter(votes, pool, n, faulty, p) ensures votes[VoteKey(pool, p)] < fee {
      assert p < honest;
    }
    assert !HonestVote(votes, pool, n, faulty, fee, false);
  }

  /** The upper bracket the aggregation claims holds exactly when the votes
      exceed the threshold by at least the number of possible faults, or the
      band leaves nothing to vote on. */
  lemma UpperBracketIffSpareVotes(cfg: Config, n: nat, pool: PoolId, m: nat)
    requires n >= 1 && ValidConfig(cfg) && Threshold(n) <= m <= n
    ensures UpperBracketAlways(cfg, n, pool, m) <==> m - Threshold(n) >= MaxEvil(n) || cfg.minFee == cfg.maxFee
  {
    hide HonestVote, ConsensusFee, VotesFor;
    if m - Threshold(n) < MaxEvil(n) && cfg.minFee < cfg.maxFee {
      FaultyCanLiftFee(cfg, n, pool, m);
    } else {
      forall votes: map<VoteKey, u16>, faulty: set<PeerId> |
        VotesInBand(cfg, votes) && VoteCount(votes, pool, n) == m && |faulty| <= MaxEvil(n)
        ensures HonestVote(votes, pool, n, faulty, ConsensusFee(cfg, n, votes, pool), false)
      {
        RankedFeeIsBracketed(cfg, n, votes, pool, faulty);
        if cfg.minFee == cfg.maxFee { OneFeeBracketsItself(cfg, n, votes, pool, faulty); }
      }
    }
  }

  lemma OneFeeBracketsItself(cfg: Config, n: nat, votes: map<VoteKey, u16>, pool: PoolId, faulty: set<PeerId>)
    requires n >= 1 && ValidConfig(cfg) && VotesInBand(cfg, votes) && cfg.minFee == cfg.maxFee
    requires HonestVote(votes, pool, n, faulty, ConsensusFee(cfg, n, votes, pool), true)
    ensures HonestVote(votes, pool, n, faulty, ConsensusFee(cfg, n, votes, pool), false)
  {
    hide ConsensusFee;
    var fee := ConsensusFee(cfg, n, votes, pool);
    var p: PeerId :| HonestVoter(votes, pool, n, faulty, p) && OnSide(votes[VoteKey(pool, p)], fee, true);
    assert OnSide(votes[VoteKey(pool, p)], fee, false);
  }
}
