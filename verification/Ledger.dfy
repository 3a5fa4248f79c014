/**
 The AMM module's replicated state and the effect each transaction item and
 consensus item has on it, as total functions from tables to tables.
 */
module Ledger {
  import opened Basics
  import opened Curve
  import opened CurveTheorems
  import Rank

  // ------------------------------------------------------------ identities

  type Unit = u64
  type PeerId = nat
  datatype PubKey = PubKey(id: nat)
  type Tweak = nat

  datatype PoolPair = PoolPair(lo: Unit, hi: Unit)

  /** Two different units, the smaller first, so either order names one pool. */
  type PoolId = p: PoolPair | p.lo < p.hi witness PoolPair(0, 1)

  function MakePoolId(x: Unit, y: Unit): Option<PoolId> {
    if x == y then None else if x < y then Some(PoolPair(x, y)) else Some(PoolPair(y, x))
  }

  // --------------------------------------------------------- configuration

  datatype Config = Config(
    units: map<Unit, u64>,  // unit -> min_swap_in
    defaultFee: u16,
    feeOverrides: map<PoolId, u16>,
    minFee: u16,
    maxFee: u16)

  /** What `validate` accepts. */
  predicate ValidConfig(cfg: Config) {
    && cfg.units != map[]
    && cfg.defaultFee < 1000
    && cfg.maxFee < 1000
    && cfg.minFee <= cfg.maxFee
    && (forall u :: u in cfg.units ==> cfg.units[u] != 0)
    && (forall p :: p in cfg.feeOverrides ==> cfg.feeOverrides[p] < 1000 && p.lo in cfg.units && p.hi in cfg.units)
  }

  function FeeFor(cfg: Config, pool: PoolId): u16 {
    if pool in cfg.feeOverrides then cfg.feeOverrides[pool] else cfg.defaultFee
  }

  predicate FeeInBand(cfg: Config, fee: int) {
    cfg.minFee <= fee <= cfg.maxFee
  }

  function ClampFeeToBand(cfg: Config, fee: int): (r: u16)
    requires cfg.minFee <= cfg.maxFee
    ensures FeeInBand(cfg, r)
    ensures FeeInBand(cfg, fee) ==> r == fee
  {
    if fee < cfg.minFee then cfg.minFee else if fee > cfg.maxFee then cfg.maxFee else fee
  }

  // ---------------------------------------------------------------- tables

  datatype Pool = Pool(reserveLo: u64, reserveHi: u64, totalShares: u64)
  datatype Position = Position(shares: u64, tweak: Tweak)
  datatype Balance = Balance(amount: u64, tweak: Tweak)
  datatype LpKey = LpKey(pool: PoolId, owner: PubKey)
  datatype BalanceKey = BalanceKey(owner: PubKey, unit: Unit)
  datatype VoteKey = VoteKey(pool: PoolId, peer: PeerId)

  datatype Tables = Tables(
    pools: map<PoolId, Pool>,
    positions: map<LpKey, Position>,
    balances: map<BalanceKey, Balance>,
    votes: map<VoteKey, u16>,
    desired: map<PoolId, u16>)

  const EMPTY := Tables(map[], map[], map[], map[], map[])

  /** Value per unit; a zero amount is never stored. */
  type Amounts = map<Unit, u64>

  function AmountIn(a: Amounts, u: Unit): u64 {
    if u in a then a[u] else 0
  }

  /** `checked_add_unit`. */
  function AddUnit(a: Amounts, amount: u64, u: Unit): Option<Amounts> {
    if amount == 0 then Some(a)
    else if AmountIn(a, u) + amount > U64_MAX then None
    else Some(a[u := AmountIn(a, u) + amount])
  }

  // ----------------------------------------------------------------- items

  /** `proven` says whether the item's signature verifies for the key it names. */
  datatype Output =
    | SwapV0(unitIn: Unit, unitOut: Unit, amountIn: u64, minOut: u64, recipient: PubKey, tweak: Tweak, proven: bool)
    | DepositV0(pool: PoolId, amountLo: u64, amountHi: u64, minShares: u64, owner: PubKey, tweak: Tweak, proven: bool)
    | UnknownOutput

  datatype Input =
    | ClaimBalanceV0(pubkey: PubKey, unit: Unit)
    | WithdrawV0(pool: PoolId, owner: PubKey, shares: u64, minLo: u64, minHi: u64, maxLo: u64, maxHi: u64)
    | UnknownInput

  datatype ConsensusItem = FeeVoteV0(pool: PoolId, fee: u16) | UnknownItem

  datatype OutputError =
    | UnknownOutputVariant | InvalidProofOfPossession | IdenticalUnits | UnknownUnit | NoSuchPool
    | BelowMinSwapIn | SlippageExceeded | OverReserveCap | KInvariantViolated | Curve(e: CurveError)

  datatype InputError =
    | UnknownInputVariant | NoSuchBalance | InputNoSuchPool | NoSuchPosition | NotEnoughShares
    | PayoutOutsideBounds | InputCurve(e: CurveError)

  datatype VoteError = OutsideBand | VoteNoSuchPool | Redundant | UnknownItemVariant

  function VerifyPop(o: Output): bool {
    match o
    case SwapV0(_, _, _, _, _, _, proven) => proven
    case DepositV0(_, _, _, _, _, _, proven) => proven
    case UnknownOutput => false
  }

  function MapCurveError(e: CurveError): OutputError {
    if e == ReserveCapExceeded then OverReserveCap else Curve(e)
  }

  function MapCurveErrorInput(e: CurveError): InputError {
    if e == InsufficientShares then NotEnoughShares else InputCurve(e)
  }

  // ---------------------------------------------------------------- voting

  /** One pool's recorded votes, in peer order. */
  function VotesFor(votes: map<VoteKey, u16>, pool: PoolId, n: nat): seq<int> {
    if n == 0 then []
    else
      var rest := VotesFor(votes, pool, n - 1);
      if VoteKey(pool, n - 1) in votes then rest + [votes[VoteKey(pool, n - 1)]] else rest
  }

  /** The fee a pool charges: the vote at ascending index `threshold - 1`, or
      the configured fee while there are too few votes, forced into the band. */
  function ConsensusFee(cfg: Config, n: nat, votes: map<VoteKey, u16>, pool: PoolId): (fee: u16)
    requires n >= 1 && cfg.minFee <= cfg.maxFee
    ensures FeeInBand(cfg, fee)
  {
    var sorted := Rank.Sort(VotesFor(votes, pool, n));
    var index := Rank.Threshold(n) - 1;
    ClampFeeToBand(cfg, if index < |sorted| then sorted[index] else FeeFor(cfg, pool))
  }

  // ----------------------------------------------------------------- swaps

  datatype SwapQuote = SwapQuote(dy: u64, inIsLo: bool, reserveIn: u64, reserveOut: u64, reserveInNew: u64)

  function QuoteSwap(cfg: Config, n: nat, votes: map<VoteKey, u16>, pool: Pool, id: PoolId,
                     unitIn: Unit, amountIn: u64, minOut: Option<u64>): (r: Result<SwapQuote, OutputError>)
    requires n >= 1 && ValidConfig(cfg)
    ensures r.Ok? ==> 1 <= r.value.dy < r.value.reserveOut && r.value.reserveInNew <= MAX_RESERVE
    ensures r.Ok? && minOut.Some? ==> r.value.dy >= minOut.value
  {
    if unitIn !in cfg.units then Err(UnknownUnit)
    else if unitIn != id.lo && unitIn != id.hi then Err(UnknownUnit)
    else
      var unitOut := if unitIn == id.lo then id.hi else id.lo;
      if unitOut !in cfg.units then Err(UnknownUnit)
      else if amountIn < cfg.units[unitIn] then Err(BelowMinSwapIn)
      else
        var inIsLo := unitIn == id.lo;
        var reserveIn := if inIsLo then pool.reserveLo else pool.reserveHi;
        var reserveOut := if inIsLo then pool.reserveHi else pool.reserveLo;
        match AmountOut(reserveIn, reserveOut, amountIn, ConsensusFee(cfg, n, votes, id))
        case Err(e) => Err(MapCurveError(e))
        case Ok(dy) =>
          if minOut.Some? && dy < minOut.value then Err(SlippageExceeded)
          else if reserveIn + amountIn > MAX_RESERVE then Err(OverReserveCap)
          else Ok(SwapQuote(dy, inIsLo, reserveIn, reserveOut, reserveIn + amountIn))
  }

  function SwapStep(cfg: Config, n: nat, s: Tables, o: Output): (r: (Tables, Result<Amounts, OutputError>))
    requires n >= 1 && ValidConfig(cfg) && o.SwapV0?
  {
    if !o.proven then (s, Err(InvalidProofOfPossession))
    else match MakePoolId(o.unitIn, o.unitOut)
    case None => (s, Err(IdenticalUnits))
    case Some(id) =>
      if id !in s.pools then (s, Err(NoSuchPool))
      else match QuoteSwap(cfg, n, s.votes, s.pools[id], id, o.unitIn, o.amountIn, Some(o.minOut))
      case Err(e) => (s, Err(e))
      case Ok(q) =>
        if !KNonDecreasing(q.reserveIn, q.reserveOut, q.reserveInNew, q.reserveOut - q.dy) then (s, Err(KInvariantViolated))
        else
          var key := BalanceKey(o.recipient, o.unitOut);
          var held := if key in s.balances then s.balances[key].amount else 0;
          if key in s.balances && held + q.dy > MAX_RESERVE then (s, Err(OverReserveCap))
          else (SwapEffect(s, id, q, key, held + q.dy, o.tweak), Ok(map[o.unitIn := o.amountIn]))
  }

  function SwapEffect(s: Tables, id: PoolId, q: SwapQuote, key: BalanceKey, credited: u64, tweak: Tweak): Tables
    requires id in s.pools && q.dy < q.reserveOut
  {
    var lo: u64 := if q.inIsLo then q.reserveInNew else q.reserveOut - q.dy;
    var hi: u64 := if q.inIsLo then q.reserveOut - q.dy else q.reserveInNew;
    s.(pools := s.pools[id := s.pools[id].(reserveLo := lo, reserveHi := hi)],
       balances := s.balances[key := Balance(credited, tweak)])
  }

  // -------------------------------------------------------------- deposits

  function PoolOrEmpty(s: Tables, id: PoolId): Pool {
    if id in s.pools then s.pools[id] else Pool(0, 0, 0)
  }

  function SharesHeld(s: Tables, key: LpKey): u64 {
    if key in s.positions then s.positions[key].shares else 0
  }

  function DepositStep(cfg: Config, s: Tables, o: Output): (r: (Tables, Result<Amounts, OutputError>))
    requires o.DepositV0?
  {
    if !o.proven then (s, Err(InvalidProofOfPossession))
    else if o.pool.lo !in cfg.units || o.pool.hi !in cfg.units then (s, Err(UnknownUnit))
    else
      var pool := PoolOrEmpty(s, o.pool);
      match MintShares(pool.reserveLo, pool.reserveHi, pool.totalShares, o.amountLo, o.amountHi)
      case Err(e) => (s, Err(MapCurveError(e)))
      case Ok(m) =>
        var key := LpKey(o.pool, o.owner);
        if m.toOwner < o.minShares then (s, Err(SlippageExceeded))
        else if SharesHeld(s, key) + m.toOwner > U64_MAX then (s, Err(Curve(Overflow)))
        else
          var pool' := Pool(pool.reserveLo + o.amountLo, pool.reserveHi + o.amountHi, m.newTotalShares);
          (s.(pools := s.pools[o.pool := pool'],
              positions := s.positions[key := Position(SharesHeld(s, key) + m.toOwner, o.tweak)]),
           Ok(map[o.pool.lo := o.amountLo, o.pool.hi := o.amountHi]))
  }

  function OutputStep(cfg: Config, n: nat, s: Tables, o: Output): (r: (Tables, Result<Amounts, OutputError>))
    requires n >= 1 && ValidConfig(cfg)
  {
    match o
    case SwapV0(_, _, _, _, _, _, _) => SwapStep(cfg, n, s, o)
    case DepositV0(_, _, _, _, _, _, _) => DepositStep(cfg, s, o)
    case UnknownOutput => (s, Err(InvalidProofOfPossession))
  }

  // ---------------------------------------------------------------- inputs

  function ClaimStep(s: Tables, i: Input): (r: (Tables, Result<Amounts, InputError>))
    requires i.ClaimBalanceV0?
  {
    var key := BalanceKey(i.pubkey, i.unit);
    if key !in s.balances then (s, Err(NoSuchBalance))
    else (s.(balances := s.balances - {key}), Ok(map[i.unit := s.balances[key].amount]))
  }

  /** Both legs of a payout, a leg that floored to zero omitted. */
  function Payout(pool: PoolId, da: u64, db: u64): Amounts {
    var lo: Amounts := if da == 0 then map[] else map[pool.lo := da];
    if db == 0 then lo else lo[pool.hi := db]
  }

  function WithdrawStep(s: Tables, i: Input): (r: (Tables, Result<Amounts, InputError>))
    requires i.WithdrawV0?
  {
    var key := LpKey(i.pool, i.owner);
    if i.pool !in s.pools then (s, Err(InputNoSuchPool))
    else if key !in s.positions then (s, Err(NoSuchPosition))
    else if i.shares > s.positions[key].shares then (s, Err(NotEnoughShares))
    else
      var pool := s.pools[i.pool];
      match BurnShares(pool.reserveLo, pool.reserveHi, pool.totalShares, i.shares)
      case Err(e) => (s, Err(MapCurveErrorInput(e)))
      case Ok(b) =>
        if b.da < i.minLo || b.db < i.minHi || b.da > i.maxLo || b.db > i.maxHi then (s, Err(PayoutOutsideBounds))
        else
          BurnIsFloored(pool.reserveLo, pool.reserveHi, pool.totalShares, i.shares);
          var left: u64 := s.positions[key].shares - i.shares;
          var pool' := Pool(pool.reserveLo - b.da, pool.reserveHi - b.db, b.newTotalShares);
          (s.(pools := s.pools[i.pool := pool'],
              positions := if left == 0 then s.positions - {key} else s.positions[key := s.positions[key].(shares := left)]),
           Ok(Payout(i.pool, b.da, b.db)))
  }

  /** An accepted input: what it brings, and the key that must sign for it. */
  datatype InputMeta = InputMeta(amounts: Amounts, pubKey: PubKey)

  function SignerOf(i: Input): Option<PubKey> {
    match i
    case ClaimBalanceV0(pubkey, _) => Some(pubkey)
    case WithdrawV0(_, owner, _, _, _, _, _) => Some(owner)
    case UnknownInput => None
  }

  function InputStep(s: Tables, i: Input): (r: (Tables, Result<Amounts, InputError>)) {
    match i
    case ClaimBalanceV0(_, _) => ClaimStep(s, i)
    case WithdrawV0(_, _, _, _, _, _, _) => WithdrawStep(s, i)
    case UnknownInput => (s, Err(UnknownInputVariant))
  }

  // ----------------------------------------------------------------- votes

  function VoteStep(cfg: Config, s: Tables, item: ConsensusItem, peer: PeerId): (r: (Tables, Result<(), VoteError>)) {
    match item
    case UnknownItem => (s, Err(UnknownItemVariant))
    case FeeVoteV0(pool, fee) =>
      if !FeeInBand(cfg, fee) then (s, Err(OutsideBand))
      else if pool !in s.pools then (s, Err(VoteNoSuchPool))
      else if VoteKey(pool, peer) in s.votes && s.votes[VoteKey(pool, peer)] == fee then (s, Err(Redundant))
      else (s.(votes := s.votes[VoteKey(pool, peer) := fee]), Ok(()))
  }

  /** The guardian's own intent, as the submit endpoint records it. */
  function IntentStep(cfg: Config, s: Tables, pool: PoolId, fee: u16): Tables {
    if FeeInBand(cfg, fee) && pool in s.pools then s.(desired := s.desired[pool := fee]) else s
  }
}
