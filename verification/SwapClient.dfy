/**
 The two-transaction swap of the client, run against the ledger: Tx1 credits a
 balance, Tx2 claims it, and between the two anyone may act on the ledger,
 including a recovery sweep that claims the same key first.
 */
module SwapClient {
  import opened Basics
  import opened Curve
  import opened Ledger
  import opened LedgerInvariants
  import opened LedgerEffects
  import LR = LedgerRuns

  datatype SwapState =
    | Tx1Submitted
    | Tx1Rejected
    | Tx1Accepted(attempts: nat)
    | Tx2Failed(attempts: nat)
    | Tx2Submitted(attempts: nat)
    | Done

  datatype Outcome = Rejected | Settled(amountOut: u64)

  /** What a state waits for. Terminal states wait for nothing. */
  datatype Trigger = AwaitTx1 | AwaitOwnBalance | AwaitBackoff | AwaitTx2

  function Transitions(state: SwapState): seq<Trigger> {
    match state
    case Tx1Submitted => [AwaitTx1]
    case Tx1Accepted(_) => [AwaitOwnBalance]
    case Tx2Failed(_) => [AwaitBackoff]
    case Tx2Submitted(_) => [AwaitTx2]
    case Tx1Rejected => []
    case Done => []
  }

  /** What the awaited trigger delivers. `submitted` says whether Tx2 could be
      built and handed over. */
  datatype Event =
    | Tx1Decided(accepted: bool)
    | BalanceRead(balance: Option<u64>, submitted: bool)
    | BackedOff
    | Tx2Decided(accepted: bool)

  predicate Fits(state: SwapState, e: Event) {
    match e
    case Tx1Decided(_) => state.Tx1Submitted?
    case BalanceRead(_, _) => state.Tx1Accepted?
    case BackedOff => state.Tx2Failed?
    case Tx2Decided(_) => state.Tx2Submitted?
  }

  function TriggerOf(e: Event): Trigger {
    match e
    case Tx1Decided(_) => AwaitTx1
    case BalanceRead(_, _) => AwaitOwnBalance
    case BackedOff => AwaitBackoff
    case Tx2Decided(_) => AwaitTx2
  }

  function NextAfterTx2Failure(priorAttempts: nat): SwapState {
    Tx2Failed(priorAttempts + 1)
  }

  function NextState(state: SwapState, e: Event): SwapState
    requires Fits(state, e)
  {
    match e
    case Tx1Decided(accepted) => if accepted then Tx1Accepted(0) else Tx1Rejected
    case BalanceRead(balance, submitted) =>
      if balance.None? then Done
      else if submitted then Tx2Submitted(state.attempts) else NextAfterTx2Failure(state.attempts)
    case BackedOff => Tx1Accepted(state.attempts)
    case Tx2Decided(accepted) => if accepted then Done else NextAfterTx2Failure(state.attempts)
  }

  /** The outcome row is rewritten in the same transaction as the state. */
  function NextOutcome(outcome: Option<Outcome>, e: Event): Option<Outcome> {
    match e
    case Tx1Decided(accepted) => if accepted then outcome else Some(Rejected)
    case BalanceRead(balance, submitted) => if balance.Some? && submitted then Some(Settled(balance.value)) else outcome
    case _ => outcome
  }

  class SwapStateMachine {
    var state: SwapState
    var outcome: Option<Outcome>

    constructor ()
      ensures state == Tx1Submitted && outcome == None
    {
      state, outcome := Tx1Submitted, None;
    }

    method Fire(e: Event)
      requires Fits(state, e)
      modifies this
      ensures state == NextState(old(state), e) && outcome == NextOutcome(old(outcome), e)
    {
      match e {
        case Tx1Decided(accepted) =>
          if accepted { state := Tx1Accepted(0); }
          else { outcome := Some(Rejected); state := Tx1Rejected; }
        case BalanceRead(balance, submitted) =>
          if balance.None? { state := Done; }
          else {
            var attempts := state.attempts;
            if submitted { outcome := Some(Settled(balance.value)); state := Tx2Submitted(attempts); }
            else { state := NextAfterTx2Failure(attempts); }
          }
        case BackedOff => state := Tx1Accepted(state.attempts);
        case Tx2Decided(accepted) =>
          state := if accepted then Done else NextAfterTx2Failure(state.attempts);
      }
    }
  }

  // -------------------------------------------------------------------- world

  datatype TxStatus = NotSubmitted | Pending | Accepted | Refused

  /** The ledger, the operation, its transactions as consensus sees them, a
      balance read not yet acted on, and a record of the history: the balance
      last handed over for claiming, the row Tx1
      left, the number and total of accepted claims of it since, and how often
      Tx2 could not be handed over or was refused by consensus. */
  datatype World = World(
    ledger: Tables,
    state: SwapState,
    outcome: Option<Outcome>,
    tx1: TxStatus,
    tx2: TxStatus,
    read: Option<Option<u64>>,
    handed: Option<u64>,
    credited: nat,
    claims: nat,
    paid: nat,
    failures: nat)

  datatype Act =
    | OrderTx1(funded: bool)
    | OrderTx2(funded: bool)
    | Others(item: LR.Item)
    | ReadBalance
    | Fire(e: Event)

  function KeyOf(swap: Output): BalanceKey
    requires swap.SwapV0?
  {
    BalanceKey(swap.recipient, swap.unitOut)
  }

  /** What the current trigger can deliver in this world. */
  predicate CanFire(w: World, e: Event) {
    Fits(w.state, e) &&
    match e
    case Tx1Decided(accepted) => w.tx1 == if accepted then Accepted else Refused
    case BalanceRead(balance, _) => w.read == Some(balance)
    case BackedOff => true
    case Tx2Decided(accepted) => w.tx2 == if accepted then Accepted else Refused
  }

  function FireIn(w: World, e: Event): World
    requires CanFire(w, e)
  {
    var state := NextState(w.state, e);
    var submits := e.BalanceRead? && e.balance.Some? && e.submitted;
    w.(state := state, outcome := NextOutcome(w.outcome, e), read := None,
       handed := if submits then w.read.value else w.handed, tx2 := if submits then Pending else w.tx2,
       failures := w.failures + if e.BalanceRead? && e.balance.Some? && !e.submitted then 1 else 0)
  }

  /** An item of somebody else's, or of our own recovery sweep. */
  function OthersIn(cfg: Config, n: nat, key: BalanceKey, w: World, item: LR.Item): World
    requires n >= 1 && ValidConfig(cfg)
  {
    var e := LR.Apply(cfg, n, w.ledger, item);
    var w' := w.(ledger := e.tables);
    if w.tx1 == Accepted && e.accepted && Claims(item, key)
    then w'.(claims := w.claims + 1, paid := w.paid + BalanceHeld(w.ledger, key)) else w'
  }

  /** Consensus orders Tx1: it lands exactly when the swap settles and the rest
      of the transaction balances. */
  function OrderTx1In(cfg: Config, n: nat, swap: Output, w: World, funded: bool): World
    requires n >= 1 && ValidConfig(cfg) && swap.SwapV0?
  {
    var (s', r) := SwapStep(cfg, n, w.ledger, swap);
    if funded && r.Ok? then w.(ledger := s', tx1 := Accepted, credited := BalanceHeld(s', KeyOf(swap))) else w.(tx1 := Refused)
  }

  function OrderTx2In(key: BalanceKey, w: World, funded: bool): World {
    var (s', r) := ClaimStep(w.ledger, ClaimBalanceV0(key.owner, key.unit));
    if funded && r.Ok?
    then w.(ledger := s', tx2 := Accepted, claims := w.claims + 1, paid := w.paid + BalanceHeld(w.ledger, key))
    else w.(tx2 := Refused, failures := w.failures + 1)
  }

  function Next(cfg: Config, n: nat, swap: Output, w: World, a: Act): World
    requires n >= 1 && ValidConfig(cfg) && swap.SwapV0?
  {
    var key := KeyOf(swap);
    match a
    case OrderTx1(funded) => if w.tx1 == Pending then OrderTx1In(cfg, n, swap, w, funded) else w
    case OrderTx2(funded) => if w.tx2 == Pending then OrderTx2In(key, w, funded) else w
    case Others(item) => OthersIn(cfg, n, key, w, item)
    case ReadBalance =>
      if w.state.Tx1Accepted?
      then w.(read := Some(if key in w.ledger.balances then Some(w.ledger.balances[key].amount) else None)) else w
    case Fire(e) => if CanFire(w, e) then FireIn(w, e) else w
  }

  function Run(cfg: Config, n: nat, swap: Output, w: World, acts: seq<Act>): World
    requires n >= 1 && ValidConfig(cfg) && swap.SwapV0?
    decreases |acts|
  {
    if acts == [] then w else Run(cfg, n, swap, Next(cfg, n, swap, w, acts[0]), acts[1..])
  }

  function Start(ledger: Tables): World {
    World(ledger, Tx1Submitted, None, Pending, NotSubmitted, None, None, 0, 0, 0, 0)
  }

  // ---------------------------------------------------------------- invariant

  function AttemptsOf(state: SwapState): nat {
    match state
    case Tx1Accepted(k) => k
    case Tx2Failed(k) => k
    case Tx2Submitted(k) => k
    case _ => 0
  }

  /** A refusal of Tx2 the operation has not heard of yet. */
  function Unseen(w: World): nat {
    if w.state.Tx2Submitted? && w.tx2 == Refused then 1 else 0
  }

  /** What the wallet is owed under the key: at least what Tx1 credited, and at
      least the amount last recorded as the outcome. */
  predicate Covers(swap: Output, w: World, amount: nat)
    requires swap.SwapV0?
  {
    w.credited <= amount && swap.minOut <= amount && (w.outcome.Some? && w.outcome.value.Settled? ==> w.outcome.value.amountOut <= amount)
  }

  /** What the outcome row should say: the rejection, or the balance last handed
      over for claiming. */
  function Recorded(w: World): Option<Outcome> {
    if w.state.Tx1Rejected? then Some(Rejected) else if w.handed.Some? then Some(Settled(w.handed.value)) else None
  }

  predicate OpInv(swap: Output, w: World)
    requires swap.SwapV0?
  {
    var key := KeyOf(swap);
    && w.tx1 != NotSubmitted
    && (w.state.Tx1Rejected? ==> w.tx1 == Refused)
    && (w.state.Tx1Accepted? || w.state.Tx2Failed? || w.state.Tx2Submitted? || w.state.Done? ==> w.tx1 == Accepted)
    && (w.tx1 == Accepted ==> Covers(swap, w, w.paid + BalanceHeld(w.ledger, key)))
    && w.outcome == Recorded(w)
    && (w.handed.Some? ==> w.tx1 == Accepted)
    && (w.handed.None? <==> w.tx2 == NotSubmitted)
    && (w.tx1 == Accepted && w.claims == 0 ==> key in w.ledger.balances)
    && (w.claims == 0 ==> w.paid == 0)
    && (w.read.Some? ==> w.state.Tx1Accepted?)
    && (w.read.Some? && w.read.value.None? ==> w.claims >= 1 && Covers(swap, w, w.paid))
    && (w.read.Some? && w.read.value.Some? ==> w.read.value.value <= w.paid + BalanceHeld(w.ledger, key))
    && (w.tx2 == Pending ==> w.state.Tx2Submitted?)
    && (w.state.Tx2Submitted? ==> w.tx2 != NotSubmitted)
    && (w.state.Tx2Submitted? && w.tx2 == Accepted ==> w.claims >= 1 && Covers(swap, w, w.paid))
    && (w.state.Done? ==> w.claims >= 1 && Covers(swap, w, w.paid))
    && (w.state.Tx1Submitted? || w.state.Tx1Rejected? ==> w.failures == 0)
    && (w.state.Tx1Accepted? || w.state.Tx2Failed? || w.state.Tx2Submitted? ==> AttemptsOf(w.state) + Unseen(w) == w.failures)
  }

  /** An accepted swap adds at least its minimum to the recipient's row. */
  lemma SwapCredits(cfg: Config, n: nat, s: Tables, swap: Output)
    requires n >= 1 && ValidConfig(cfg) && swap.SwapV0? && SwapStep(cfg, n, s, swap).1.Ok?
    ensures KeyOf(swap) in SwapStep(cfg, n, s, swap).0.balances
    ensures BalanceHeld(SwapStep(cfg, n, s, swap).0, KeyOf(swap)) >= BalanceHeld(s, KeyOf(swap)) + swap.minOut
  {
    hide AmountOut, ConsensusFee, QuoteSwap, SwapStep, ValidConfig;
    var id, q := SwapRows(cfg, n, s, swap);
  }

  lemma NextKeepsOpInv(cfg: Config, n: nat, swap: Output, w: World, a: Act)
    requires n >= 1 && ValidConfig(cfg) && swap.SwapV0? && OpInv(swap, w)
    ensures OpInv(swap, Next(cfg, n, swap, w, a))
  {
    hide SwapStep, LR.Apply, ValidConfig;
    var key := KeyOf(swap);
    match a {
      case OrderTx1(funded) => if SwapStep(cfg, n, w.ledger, swap).1.Ok? { SwapCredits(cfg, n, w.ledger, swap); }
      case Others(item) => BalanceFallsOnlyByItsClaim(cfg, n, w.ledger, item, key);
      case _ =>
    }
  }

  lemma {:induction false} RunKeepsOpInv(cfg: Config, n: nat, swap: Output, w: World, acts: seq<Act>)
    requires n >= 1 && ValidConfig(cfg) && swap.SwapV0? && OpInv(swap, w)
    ensures OpInv(swap, Run(cfg, n, swap, w, acts))
    decreases |acts|
  {
    hide Next, OpInv, ValidConfig;
    if acts != [] {
      NextKeepsOpInv(cfg, n, swap, w, acts[0]);
      RunKeepsOpInv(cfg, n, swap, Next(cfg, n, swap, w, acts[0]), acts[1..]);
    }
  }

  // ------------------------------------------------------------- main results

  /** In every run against the ledger, whoever else acts on it: once Tx1 is
      accepted the operation never ends rejected and its attempts count the Tx2
      failures; it is Done only after accepted claims paid at least what Tx1
      credited, the swap's minimum, and the amount it recorded as settled; and
      until some claim lands the credit still stands. */
  lemma SwapEndsOnlyWithItsBalanceClaimed(cfg: Config, n: nat, swap: Output, ledger: Tables, acts: seq<Act>)
    requires n >= 1 && ValidConfig(cfg) && swap.SwapV0?
    ensures var w := Run(cfg, n, swap, Start(ledger), acts);
            (w.tx1 == Accepted ==> !w.state.Tx1Rejected?) &&
            (w.state.Done? ==> w.tx1 == Accepted && w.claims >= 1 && Covers(swap, w, w.paid)) &&
            (w.state.Tx1Accepted? || w.state.Tx2Failed? || w.state.Tx2Submitted? ==> AttemptsOf(w.state) + Unseen(w) == w.failures) &&
            (w.tx1 == Accepted && w.claims == 0 ==> Covers(swap, w, BalanceHeld(w.ledger, KeyOf(swap))))
  {
    hide ValidConfig, Run;
    RunKeepsOpInv(cfg, n, swap, Start(ledger), acts);
  }

  /** In every run the outcome row says exactly what happened: a rejection when
      Tx1 was rejected, and otherwise the balance of the last read that was
      handed over, which there is whenever Tx2 is out or was accepted. */
  lemma OutcomeIsWhatWasHandedOver(cfg: Config, n: nat, swap: Output, ledger: Tables, acts: seq<Act>)
    requires n >= 1 && ValidConfig(cfg) && swap.SwapV0?
    ensures var w := Run(cfg, n, swap, Start(ledger), acts);
            (w.state.Tx1Rejected? ==> w.outcome == Some(Rejected)) &&
            (!w.state.Tx1Rejected? ==> w.outcome == if w.handed.Some? then Some(Settled(w.handed.value)) else None) &&
            (w.state.Tx2Submitted? || w.tx2 == Accepted ==> w.handed.Some? && !w.state.Tx1Rejected?)
  {
    hide ValidConfig, Run;
    RunKeepsOpInv(cfg, n, swap, Start(ledger), acts);
  }

  /** Exactly one transition out of every live state, none out of a terminal
      one; and the awaited event is the only kind that fits. */
  lemma OneTransitionPerLiveState(state: SwapState, e: Event)
    ensures |Transitions(state)| == if state.Done? || state.Tx1Rejected? then 0 else 1
    ensures Fits(state, e) <==> Transitions(state) == [TriggerOf(e)]
  {
  }

  /** How each state is entered: a terminal one only by its own verdict, the
      claim only after Tx1 or a back-off, and every failure of Tx2 backs off
      with one more attempt. */
  lemma EnteredOnlyBy(state: SwapState, e: Event)
    requires Fits(state, e)
    ensures var next := NextState(state, e);
            (next == Tx1Rejected <==> e == Tx1Decided(false)) &&
            (next == Done <==> e == Tx2Decided(true) || (e.BalanceRead? && e.balance.None?)) &&
            (next.Tx1Accepted? <==> e == Tx1Decided(true) || e.BackedOff?) &&
            (next.Tx2Submitted? <==> e.BalanceRead? && e.balance.Some? && e.submitted) &&
            (next.Tx2Failed? <==> e == Tx2Decided(false) || (e.BalanceRead? && e.balance.Some? && !e.submitted)) &&
            AttemptsOf(next) == (if next == Done then 0 else AttemptsOf(state) + if next.Tx2Failed? then 1 else 0)
  {
  }

  /** An operation that is not finished can always be brought to Done: it is
      never stuck, and needs at most one more claim. */
  lemma AcceptedSwapCanFinish(cfg: Config, n: nat, swap: Output, ledger: Tables, acts: seq<Act>) returns (more: seq<Act>)
    requires n >= 1 && ValidConfig(cfg) && swap.SwapV0?
    requires Run(cfg, n, swap, Start(ledger), acts).tx1 == Accepted
    ensures |more| <= 8 && Run(cfg, n, swap, Run(cfg, n, swap, Start(ledger), acts), more).state.Done?
  {
    RunKeepsOpInv(cfg, n, swap, Start(ledger), acts);
    var w := Run(cfg, n, swap, Start(ledger), acts);
    more := FinishFrom(cfg, n, swap, w);
  }

  lemma FinishFrom(cfg: Config, n: nat, swap: Output, w: World) returns (more: seq<Act>)
    requires n >= 1 && ValidConfig(cfg) && swap.SwapV0? && OpInv(swap, w) && w.tx1 == Accepted
    ensures |more| <= 8 && Run(cfg, n, swap, w, more).state.Done?
  {
    hide SwapStep, LR.Apply, ValidConfig;
    match w.state {
      case Done => more := [];
      case Tx1Submitted =>
        var a := Fire(Tx1Decided(true));
        var rest := FinishFromAccepted(cfg, n, swap, Next(cfg, n, swap, w, a));
        RunOne(cfg, n, swap, w, a);
        RunPrefix(cfg, n, swap, w, [a], rest);
        more := [a] + rest;
      case Tx1Accepted(_) => more := FinishFromAccepted(cfg, n, swap, w);
      case Tx2Failed(_) =>
        var a := Fire(BackedOff);
        var rest := FinishFromAccepted(cfg, n, swap, Next(cfg, n, swap, w, a));
        RunOne(cfg, n, swap, w, a);
        RunPrefix(cfg, n, swap, w, [a], rest);
        more := [a] + rest;
      case Tx2Submitted(_) =>
        var a := OrderTx2(true);
        var w1 := Next(cfg, n, swap, w, a);
        NextKeepsOpInv(cfg, n, swap, w, a);
        if w1.tx2 == Accepted {
          var b := Fire(Tx2Decided(true));
          RunTwo(cfg, n, swap, w, a, b);
          more := [a, b];
        } else {
          var b := Fire(Tx2Decided(false));
          var w2 := Next(cfg, n, swap, w1, b);
          NextKeepsOpInv(cfg, n, swap, w1, b);
          var c := Fire(BackedOff);
          var w3 := Next(cfg, n, swap, w2, c);
          NextKeepsOpInv(cfg, n, swap, w2, c);
          var rest := FinishFromAccepted(cfg, n, swap, w3);
          RunPrefix(cfg, n, swap, w, [a, b, c], rest);
          RunThree(cfg, n, swap, w, a, b, c);
          more := [a, b, c] + rest;
        }
    }
  }

  /** Read the balance; if it is there, submit Tx2 and have it ordered. */
  lemma FinishFromAccepted(cfg: Config, n: nat, swap: Output, w: World) returns (more: seq<Act>)
    requires n >= 1 && ValidConfig(cfg) && swap.SwapV0? && w.state.Tx1Accepted?
    ensures |more| <= 4 && Run(cfg, n, swap, w, more).state.Done?
  {
    hide SwapStep, LR.Apply, ValidConfig;
    var key := KeyOf(swap);
    var w1 := Next(cfg, n, swap, w, ReadBalance);
    if key in w.ledger.balances {
      var b := Fire(BalanceRead(Some(w.ledger.balances[key].amount), true));
      RunTwo(cfg, n, swap, w, ReadBalance, b);
      var w2 := Next(cfg, n, swap, w1, b);
      RunTwo(cfg, n, swap, w2, OrderTx2(true), Fire(Tx2Decided(true)));
      RunPrefix(cfg, n, swap, w, [ReadBalance, b], [OrderTx2(true), Fire(Tx2Decided(true))]);
      more := [ReadBalance, b] + [OrderTx2(true), Fire(Tx2Decided(true))];
    } else {
      RunTwo(cfg, n, swap, w, ReadBalance, Fire(BalanceRead(None, true)));
      more := [ReadBalance, Fire(BalanceRead(None, true))];
    }
  }

  lemma {:induction false} RunPrefix(cfg: Config, n: nat, swap: Output, w: World, a: seq<Act>, b: seq<Act>)
    requires n >= 1 && ValidConfig(cfg) && swap.SwapV0?
    ensures Run(cfg, n, swap, w, a + b) == Run(cfg, n, swap, Run(cfg, n, swap, w, a), b)
    decreases |a|
  {
    hide Next, ValidConfig;
    if a == [] {
      assert a + b == b;
    } else {
      assert (a + b)[1..] == a[1..] + b;
      RunPrefix(cfg, n, swap, Next(cfg, n, swap, w, a[0]), a[1..], b);
    }
  }

  lemma RunOne(cfg: Config, n: nat, swap: Output, w: World, a: Act)
    requires n >= 1 && ValidConfig(cfg) && swap.SwapV0?
    ensures Run(cfg, n, swap, w, [a]) == Next(cfg, n, swap, w, a)
  {
    hide Next, ValidConfig;
    assert [a][1..] == [];
  }

  lemma RunTwo(cfg: Config, n: nat, swap: Output, w: World, a: Act, b: Act)
    requires n >= 1 && ValidConfig(cfg) && swap.SwapV0?
    ensures Run(cfg, n, swap, w, [a, b]) == Next(cfg, n, swap, Next(cfg, n, swap, w, a), b)
  {
    hide Next, ValidConfig;
    assert [a, b][1..] == [b];
    RunOne(cfg, n, swap, Next(cfg, n, swap, w, a), b);
  }

  lemma RunThree(cfg: Config, n: nat, swap: Output, w: World, a: Act, b: Act, c: Act)
    requires n >= 1 && ValidConfig(cfg) && swap.SwapV0?
    ensures Run(cfg, n, swap, w, [a, b, c]) == Next(cfg, n, swap, Next(cfg, n, swap, Next(cfg, n, swap, w, a), b), c)
  {
    hide Next, ValidConfig;
    assert [a, b, c][1..] == [b, c];
    RunTwo(cfg, n, swap, Next(cfg, n, swap, w, a), b, c);
  }
}
