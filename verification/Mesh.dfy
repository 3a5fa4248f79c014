/**
 The round transport: `n` parties, one FIFO channel per ordered pair, and an
 exchange that sends to every other party in index order and then receives
 once from every other party in index order. Every send and every receive is
 its own atomic step, so the runs below are all interleavings.
 */
module Mesh {
  import opened Basics

  datatype Phase = Idle | Sending(next: nat) | Receiving(next: nat)

  /** One endpoint. `sent` lists the payloads of the exchanges it has started,
      `done` what its completed exchanges returned. */
  datatype Party<P> = Party(phase: Phase, slots: seq<Option<P>>, sent: seq<P>, done: seq<seq<P>>)

  datatype Net<P> = Net(parties: seq<Party<P>>, chans: map<(nat, nat), seq<P>>)

  function Init<P>(n: nat): Net<P> {
    Net(seq(n, _ => Party(Idle, [], [], [])), map i: nat, j: nat | 0 <= i < n && 0 <= j < n :: (i, j) := [])
  }

  ghost predicate Shaped<P>(s: Net<P>) {
    forall i: nat, j: nat :: (i, j) in s.chans <==> i < |s.parties| && j < |s.parties|
  }

  // ------------------------------------------------------------------ steps

  predicate CanStart<P>(s: Net<P>, i: nat) {
    i < |s.parties| && s.parties[i].phase == Idle
  }

  function Start<P>(s: Net<P>, i: nat, ours: P): Net<P>
    requires CanStart(s, i)
  {
    s.(parties := s.parties[i := s.parties[i].(phase := Sending(0), sent := s.parties[i].sent + [ours])])
  }

  /** Mid-exchange, and not waiting on an empty channel. */
  predicate CanStep<P>(s: Net<P>, i: nat)
    requires Shaped(s)
  {
    i < |s.parties| &&
    match s.parties[i].phase
    case Idle => false
    case Sending(j) => s.parties[i].sent != []
    case Receiving(j) => j < |s.parties| && j != i ==> s.chans[(j, i)] != []
  }

  function Unwrap<P>(slots: seq<Option<P>>): (r: seq<P>)
    requires forall k :: 0 <= k < |slots| ==> slots[k].Some?
    ensures |r| == |slots| && forall k :: 0 <= k < |slots| ==> slots[k] == Some(r[k])
  {
    if slots == [] then [] else [slots[0].value] + Unwrap(slots[1..])
  }

  /** The one step party `i` can take next. */
  function Step<P>(s: Net<P>, i: nat): Net<P>
    requires Shaped(s) && CanStep(s, i) && SlotsReady(s, i)
  {
    var n := |s.parties|;
    var p := s.parties[i];
    match p.phase
    case Sending(j) =>
      var ours := p.sent[|p.sent| - 1];
      if j >= n then s.(parties := s.parties[i := p.(phase := Receiving(0), slots := seq(n, _ => None)[i := Some(ours)])])
      else
        var s' := s.(parties := s.parties[i := p.(phase := Sending(j + 1))]);
        if j == i then s' else s'.(chans := s.chans[(i, j) := s.chans[(i, j)] + [ours]])
    case Receiving(j) =>
      if j >= n then s.(parties := s.parties[i := p.(phase := Idle, slots := [], done := p.done + [Unwrap(p.slots)])])
      else if j == i then s.(parties := s.parties[i := p.(phase := Receiving(j + 1))])
      else
        var head := s.chans[(j, i)][0];
        Net(s.parties[i := p.(phase := Receiving(j + 1), slots := p.slots[j := Some(head)])],
            s.chans[(j, i) := s.chans[(j, i)][1..]])
  }

  /** A party that has received from everyone has every slot filled. */
  predicate SlotsReady<P>(s: Net<P>, i: nat)
    requires i < |s.parties|
  {
    var p := s.parties[i];
    p.phase.Receiving? ==>
      && |p.slots| == |s.parties|
      && forall j :: 0 <= j < |s.parties| && (j < p.phase.next || j == i) ==> p.slots[j].Some?
  }

  // -------------------------------------------------------------- invariant

  function Rounds<P>(p: Party<P>): nat {
    |p.done|
  }

  /** How many payloads this party has put on its channel to `j`. */
  function SentTo<P>(p: Party<P>, j: nat): nat {
    |p.done| + (if p.phase.Receiving? || (p.phase.Sending? && j < p.phase.next) then 1 else 0)
  }

  /** How many payloads this party has taken from `j`. */
  function TakenFrom<P>(p: Party<P>, j: nat): nat {
    |p.done| + (if p.phase.Receiving? && j < p.phase.next then 1 else 0)
  }

  predicate Local<P>(p: Party<P>) {
    |p.sent| == |p.done| + (if p.phase.Idle? then 0 else 1)
  }

  /** The channel holds exactly what was sent on it and not yet taken, in order. */
  predicate ChannelOk<P(==)>(s: Net<P>, i: nat, j: nat)
    requires Shaped(s) && i < |s.parties| && j < |s.parties|
  {
    var a, b := s.parties[i], s.parties[j];
    TakenFrom(b, i) <= SentTo(a, j) <= |a.sent| &&
    s.chans[(i, j)] == a.sent[TakenFrom(b, i)..SentTo(a, j)]
  }

  /** What party `i` holds from `j`: every completed round and the open slot. */
  predicate HeldOk<P(==)>(s: Net<P>, i: nat, j: nat)
    requires i < |s.parties| && j < |s.parties|
  {
    var p, q := s.parties[i], s.parties[j];
    && |p.done| <= |q.sent|
    && (forall r :: 0 <= r < |p.done| ==> |p.done[r]| == |s.parties| && p.done[r][j] == q.sent[r])
    && (p.phase.Receiving? ==> |p.slots| == |s.parties| && p.phase.next <= |s.parties|)
    && (p.phase.Receiving? && (j < p.phase.next || j == i) ==> |p.done| < |q.sent| && p.slots[j] == Some(q.sent[|p.done|]))
    && (p.phase.Sending? ==> p.phase.next <= |s.parties|)
  }

  ghost predicate Inv<P(!new)>(s: Net<P>) {
    && Shaped(s)
    && (forall i :: 0 <= i < |s.parties| ==> Local(s.parties[i]))
    && (forall i: nat, j: nat :: i < |s.parties| && j < |s.parties| && i != j ==> ChannelOk(s, i, j))
    && (forall i: nat, j: nat :: i < |s.parties| && j < |s.parties| ==> HeldOk(s, i, j))
  }

  lemma InitInv<P(!new)>(n: nat)
    ensures Inv<P>(Init(n))
  {
  }

  lemma StepReady<P(!new)>(s: Net<P>, i: nat)
    requires Inv(s) && i < |s.parties|
    ensures SlotsReady(s, i)
    ensures !s.parties[i].phase.Idle? ==> s.parties[i].sent != []
  {
    if s.parties[i].phase.Receiving? {
      assert HeldOk(s, i, i);
      forall j: nat | j < |s.parties| && (j < s.parties[i].phase.next || j == i) ensures s.parties[i].slots[j].Some? {
        assert HeldOk(s, i, j);
      }
    }
    assert Local(s.parties[i]);
  }

  lemma StartInv<P(!new)>(s: Net<P>, i: nat, ours: P)
    requires Inv(s) && CanStart(s, i)
    ensures Inv(Start(s, i, ours))
  {
    var s' := Start(s, i, ours);
    assert Local(s.parties[i]);
    forall a: nat, b: nat | a < |s.parties| && b < |s.parties| && a != b ensures ChannelOk(s', a, b) {
      assert ChannelOk(s, a, b);
    }
    forall a: nat, b: nat | a < |s.parties| && b < |s.parties| ensures HeldOk(s', a, b) {
      assert HeldOk(s, a, b);
    }
  }

  lemma StepInv<P(!new)>(s: Net<P>, i: nat)
    requires Inv(s) && CanStep(s, i) && SlotsReady(s, i)
    ensures Inv(Step(s, i))
  {
    var s' := Step(s, i);
    assert Local(s.parties[i]) && HeldOk(s, i, i);
    forall a: nat, b: nat | a < |s.parties| && b < |s.parties| && a != b ensures ChannelOk(s', a, b) {
      assert ChannelOk(s, a, b);
      if s.parties[i].phase.Sending? { SendChannel(s, i, a, b); } else { ReceiveChannel(s, i, a, b); }
    }
    forall a: nat, b: nat | a < |s.parties| && b < |s.parties| ensures HeldOk(s', a, b) {
      assert HeldOk(s, a, b);
      if b != a { assert ChannelOk(s, b, a); }
      if s.parties[i].phase.Sending? { SendHeld(s, i, a, b); } else { ReceiveHeld(s, i, a, b); }
    }
    forall a | 0 <= a < |s.parties| ensures Local(s'.parties[a]) { assert Local(s.parties[a]); }
  }

  lemma SendChannel<P(!new)>(s: Net<P>, i: nat, a: nat, b: nat)
    requires Shaped(s) && CanStep(s, i) && SlotsReady(s, i) && Local(s.parties[i]) && s.parties[i].phase.Sending?
    requires a < |s.parties| && b < |s.parties| && a != b && ChannelOk(s, a, b)
    ensures Shaped(Step(s, i)) && ChannelOk(Step(s, i), a, b)
  {
  }

  lemma ReceiveChannel<P(!new)>(s: Net<P>, i: nat, a: nat, b: nat)
    requires Shaped(s) && CanStep(s, i) && SlotsReady(s, i) && Local(s.parties[i]) && s.parties[i].phase.Receiving? && HeldOk(s, i, i)
    requires a < |s.parties| && b < |s.parties| && a != b && ChannelOk(s, a, b)
    ensures Shaped(Step(s, i)) && ChannelOk(Step(s, i), a, b)
  {
  }

  lemma SendHeld<P(!new)>(s: Net<P>, i: nat, a: nat, b: nat)
    requires Shaped(s) && CanStep(s, i) && SlotsReady(s, i) && Local(s.parties[i]) && s.parties[i].phase.Sending?
    requires a < |s.parties| && b < |s.parties| && HeldOk(s, a, b) && (a != b ==> ChannelOk(s, b, a))
    ensures HeldOk(Step(s, i), a, b)
  {
  }

  lemma ReceiveHeld<P(!new)>(s: Net<P>, i: nat, a: nat, b: nat)
    requires Shaped(s) && CanStep(s, i) && SlotsReady(s, i) && Local(s.parties[i]) && s.parties[i].phase.Receiving?
    requires a < |s.parties| && b < |s.parties| && HeldOk(s, a, b) && (a != b ==> ChannelOk(s, b, a))
    ensures HeldOk(Step(s, i), a, b)
  {
  }

  // ------------------------------------------------------------------- runs

  datatype Action<P> = StartAction(party: nat, ours: P) | StepAction(party: nat)

  /** A scheduled action of a party that cannot take it is a wait. */
  ghost function Act<P(!new)>(s: Net<P>, a: Action<P>): (s': Net<P>)
    requires Inv(s)
    ensures Inv(s') && |s'.parties| == |s.parties|
  {
    match a
    case StartAction(i, ours) => if CanStart(s, i) then StartInv(s, i, ours); Start(s, i, ours) else s
    case StepAction(i) => if CanStep(s, i) then StepReady(s, i); StepInv(s, i); Step(s, i) else s
  }

  ghost function Run<P(!new)>(s: Net<P>, schedule: seq<Action<P>>): (s': Net<P>)
    requires Inv(s)
    ensures Inv(s') && |s'.parties| == |s.parties|
    decreases |schedule|
  {
    if schedule == [] then s else Run(Act(s, schedule[0]), schedule[1..])
  }

  ghost function RunFrom0<P(!new)>(n: nat, schedule: seq<Action<P>>): (s: Net<P>)
    ensures Inv(s) && |s.parties| == n
  {
    InitInv<P>(n);
    Run(Init(n), schedule)
  }

  /** Under every interleaving, slot `j` of party `i`'s `r`-th completed
      exchange holds party `j`'s `r`-th payload. */
  lemma RoundsAreAligned<P(!new)>(n: nat, schedule: seq<Action<P>>, i: nat, j: nat, r: nat)
    requires i < n && j < n && r < |RunFrom0<P>(n, schedule).parties[i].done|
    ensures var s := RunFrom0<P>(n, schedule);
            |s.parties[i].done[r]| == n && r < |s.parties[j].sent| && s.parties[i].done[r][j] == s.parties[j].sent[r]
  {
    assert HeldOk(RunFrom0<P>(n, schedule), i, j);
  }

  lemma SkewIsBounded<P(!new)>(s: Net<P>, i: nat, j: nat)
    requires Inv(s) && i < |s.parties| && j < |s.parties|
    ensures Rounds(s.parties[i]) <= Rounds(s.parties[j]) + 1
  {
    assert HeldOk(s, i, j) && Local(s.parties[j]);
  }

  /** Completed-round counts never differ by more than one, and no channel
      ever holds more than two payloads. */
  lemma SkewAndBacklogAreBounded<P(!new)>(n: nat, schedule: seq<Action<P>>, i: nat, j: nat)
    requires i < n && j < n
    ensures var s := RunFrom0<P>(n, schedule);
            -1 <= Rounds(s.parties[i]) - Rounds(s.parties[j]) <= 1 && (i != j ==> |s.chans[(i, j)]| <= 2)
  {
    var s := RunFrom0<P>(n, schedule);
    SkewIsBounded(s, i, j);
    SkewIsBounded(s, j, i);
    if i != j { assert ChannelOk(s, i, j); }
  }

  lemma {:induction false} LeastRounds<P(!new)>(s: Net<P>, candidates: set<nat>) returns (m: nat)
    requires candidates != {} && forall i :: i in candidates ==> i < |s.parties|
    ensures m in candidates && forall i :: i in candidates ==> Rounds(s.parties[m]) <= Rounds(s.parties[i])
    decreases |candidates|
  {
    var c :| c in candidates;
    if candidates == {c} {
      m := c;
    } else {
      assert |candidates - {c}| == |candidates| - 1;
      assert candidates == {c} + (candidates - {c});
      m := LeastRounds(s, candidates - {c});
      if Rounds(s.parties[c]) < Rounds(s.parties[m]) { m := c; }
      forall i | i in candidates ensures Rounds(s.parties[m]) <= Rounds(s.parties[i]) {
        if i != c { assert i in candidates - {c}; }
      }
    }
  }

  /** A party waits only on one that is behind it: whoever is mid-exchange and
      has completed no more rounds than anyone can move, provided the parties
      level with it are mid-exchange too. */
  lemma LeastCanStep<P(!new)>(s: Net<P>, m: nat)
    requires Inv(s) && m < |s.parties| && !s.parties[m].phase.Idle?
    requires forall i :: 0 <= i < |s.parties| ==>
               Rounds(s.parties[m]) < Rounds(s.parties[i]) || (Rounds(s.parties[m]) == Rounds(s.parties[i]) && !s.parties[i].phase.Idle?)
    requires forall i :: 0 <= i < |s.parties| ==> !(s.parties[i].phase.Sending? && CanStep(s, i))
    ensures CanStep(s, m)
  {
    StepReady(s, m);
    var p := s.parties[m];
    if p.phase.Receiving? && p.phase.next < |s.parties| && p.phase.next != m {
      var j := p.phase.next;
      StepReady(s, j);
      assert ChannelOk(s, j, m);
      assert !s.parties[j].phase.Sending?;
    }
  }

  /** No state in which every party is mid-exchange is stuck. */
  lemma NoDeadlock<P(!new)>(n: nat, schedule: seq<Action<P>>)
    requires n >= 1 && forall i :: 0 <= i < n ==> !RunFrom0<P>(n, schedule).parties[i].phase.Idle?
    ensures exists i: nat :: i < n && CanStep(RunFrom0<P>(n, schedule), i)
  {
    var s := RunFrom0<P>(n, schedule);
    var busy := set i: nat | i < |s.parties| && !s.parties[i].phase.Idle?;
    assert 0 in busy;
    var m := LeastRounds(s, busy);
    forall i | 0 <= i < n ensures Rounds(s.parties[m]) <= Rounds(s.parties[i]) { assert i in busy; }
    if forall i :: 0 <= i < n ==> !(s.parties[i].phase.Sending? && CanStep(s, i)) {
      LeastCanStep(s, m);
    }
  }

  // --------------------------------------------------- fixed number of rounds

  /** Everyone wants `rounds` exchanges: a party that is idle and short of them
      may start the next one. */
  ghost predicate CanMove<P(!new)>(s: Net<P>, rounds: nat, i: nat)
    requires Shaped(s)
  {
    CanStep(s, i) || (CanStart(s, i) && Rounds(s.parties[i]) < rounds)
  }

  ghost predicate WithinRounds<P(!new)>(s: Net<P>, rounds: nat) {
    forall i :: 0 <= i < |s.parties| ==> |s.parties[i].sent| <= rounds
  }

  /** As long as some party is short of its rounds, some party can move. */
  lemma ProgressUntilDone<P(!new)>(s: Net<P>, rounds: nat)
    requires Inv(s) && WithinRounds(s, rounds)
    requires forall i: nat :: i < |s.parties| ==> !CanMove(s, rounds, i)
    ensures forall i :: 0 <= i < |s.parties| ==> s.parties[i].phase.Idle? && Rounds(s.parties[i]) == rounds
  {
    var busy := set i: nat | i < |s.parties| && !s.parties[i].phase.Idle?;
    if busy != {} {
      var m := LeastRounds(s, busy);
      forall i | 0 <= i < |s.parties|
        ensures Rounds(s.parties[m]) < Rounds(s.parties[i]) || (Rounds(s.parties[m]) == Rounds(s.parties[i]) && !s.parties[i].phase.Idle?)
      {
        assert Local(s.parties[m]) && Local(s.parties[i]);
        assert !CanMove(s, rounds, i);
        if !s.parties[i].phase.Idle? { assert i in busy; }
      }
      forall i | 0 <= i < |s.parties| ensures !(s.parties[i].phase.Sending? && CanStep(s, i)) { assert !CanMove(s, rounds, i); }
      assert !CanMove(s, rounds, m);
      LeastCanStep(s, m);
    }
    forall i | 0 <= i < |s.parties| ensures s.parties[i].phase.Idle? && Rounds(s.parties[i]) == rounds {
      assert i !in busy && Local(s.parties[i]) && !CanMove(s, rounds, i);
    }
  }

  /** Steps party `i` still has to take to finish `rounds` exchanges. */
  function WorkLeft<P>(p: Party<P>, n: nat, rounds: nat): int {
    (rounds - |p.done|) * (2 * n + 3)
    - (match p.phase case Idle => 0 case Sending(j) => 1 + j case Receiving(j) => n + 2 + j)
  }

  lemma MoveSpendsWork<P(!new)>(s: Net<P>, rounds: nat, i: nat, ours: P)
    requires Inv(s) && WithinRounds(s, rounds) && i < |s.parties|
    ensures CanStart(s, i) ==>
              WorkLeft(Start(s, i, ours).parties[i], |s.parties|, rounds) == WorkLeft(s.parties[i], |s.parties|, rounds) - 1
    ensures CanStep(s, i) && SlotsReady(s, i) ==>
              WorkLeft(Step(s, i).parties[i], |s.parties|, rounds) == WorkLeft(s.parties[i], |s.parties|, rounds) - 1
  {
    StepReady(s, i);
    var p, n := s.parties[i], |s.parties|;
    assert Local(p) && HeldOk(s, i, i) && |p.sent| <= rounds;
    var left := rounds - |p.done|;
    assert left * (2 * n + 3) == (left - 1) * (2 * n + 3) + (2 * n + 3);
  }

  function TotalWork<P>(parties: seq<Party<P>>, n: nat, rounds: nat): int {
    if parties == [] then 0 else WorkLeft(parties[0], n, rounds) + TotalWork(parties[1..], n, rounds)
  }

  lemma {:induction false} TotalUpdate<P>(parties: seq<Party<P>>, n: nat, rounds: nat, i: nat, p: Party<P>)
    requires i < |parties|
    ensures TotalWork(parties[i := p], n, rounds) ==
            TotalWork(parties, n, rounds) - WorkLeft(parties[i], n, rounds) + WorkLeft(p, n, rounds)
  {
    if i == 0 {
      assert parties[i := p][1..] == parties[1..];
    } else {
      TotalUpdate(parties[1..], n, rounds, i - 1, p);
      assert parties[i := p][1..] == parties[1..][i - 1 := p];
    }
  }

  lemma {:induction false} TotalOfParts<P>(parties: seq<Party<P>>, n: nat, rounds: nat)
    requires forall i :: 0 <= i < |parties| ==> WorkLeft(parties[i], n, rounds) >= 0
    ensures TotalWork(parties, n, rounds) >= 0
    ensures TotalWork(parties, n, rounds) == 0 ==> forall i :: 0 <= i < |parties| ==> WorkLeft(parties[i], n, rounds) == 0
  {
    if parties != [] { TotalOfParts(parties[1..], n, rounds); }
  }

  lemma {:induction false} TotalOfFresh<P>(parties: seq<Party<P>>, n: nat, rounds: nat)
    requires forall i :: 0 <= i < |parties| ==> parties[i].phase.Idle? && parties[i].done == []
    ensures TotalWork(parties, n, rounds) == |parties| * (rounds * (2 * n + 3))
  {
    if parties != [] {
      TotalOfFresh(parties[1..], n, rounds);
      assert |parties| * (rounds * (2 * n + 3)) == (|parties| - 1) * (rounds * (2 * n + 3)) + rounds * (2 * n + 3);
    }
  }

  ghost predicate Moves<P(!new)>(s: Net<P>, rounds: nat, a: Action<P>)
    requires Shaped(s)
  {
    match a
    case StartAction(i, _) => CanStart(s, i) && Rounds(s.parties[i]) < rounds
    case StepAction(i) => CanStep(s, i)
  }

  /** Every action of the schedule is one its party can take. */
  ghost predicate Effective<P(!new)>(s: Net<P>, rounds: nat, schedule: seq<Action<P>>)
    requires Inv(s)
    decreases |schedule|
  {
    schedule == [] || (Moves(s, rounds, schedule[0]) && Effective(Act(s, schedule[0]), rounds, schedule[1..]))
  }

  lemma ActSpendsWork<P(!new)>(s: Net<P>, rounds: nat, a: Action<P>)
    requires Inv(s) && WithinRounds(s, rounds) && Moves(s, rounds, a)
    ensures WithinRounds(Act(s, a), rounds)
    ensures TotalWork(Act(s, a).parties, |s.parties|, rounds) == TotalWork(s.parties, |s.parties|, rounds) - 1
  {
    var i := a.party;
    StepReady(s, i);
    assert Local(s.parties[i]);
    var s' := Act(s, a);
    if a.StartAction? { MoveSpendsWork(s, rounds, i, a.ours); } else { MoveSpendsWork(s, rounds, i, s.parties[i].sent[0]); }
    assert s'.parties == s.parties[i := s'.parties[i]];
    TotalUpdate(s.parties, |s.parties|, rounds, i, s'.parties[i]);
  }

  lemma {:induction false} EffectiveRunSpendsWork<P(!new)>(s: Net<P>, rounds: nat, schedule: seq<Action<P>>)
    requires Inv(s) && WithinRounds(s, rounds) && Effective(s, rounds, schedule)
    ensures WithinRounds(Run(s, schedule), rounds)
    ensures TotalWork(Run(s, schedule).parties, |s.parties|, rounds) == TotalWork(s.parties, |s.parties|, rounds) - |schedule|
    decreases |schedule|
  {
    if schedule != [] {
      ActSpendsWork(s, rounds, schedule[0]);
      EffectiveRunSpendsWork(Act(s, schedule[0]), rounds, schedule[1..]);
    }
  }

  /** Liveness: whatever the scheduler does, `n` parties that each want
      `rounds` exchanges make at most `n * rounds * (2n + 3)` moves, can always
      make another before that, and have then all finished every round. */
  lemma AllRoundsComplete<P(!new)>(n: nat, rounds: nat, schedule: seq<Action<P>>)
    requires (InitInv<P>(n); Effective(Init<P>(n), rounds, schedule))
    ensures |schedule| <= n * (rounds * (2 * n + 3))
    ensures var s := RunFrom0<P>(n, schedule);
            |schedule| < n * (rounds * (2 * n + 3)) <==> exists i: nat :: i < n && CanMove(s, rounds, i)
    ensures var s := RunFrom0<P>(n, schedule);
            |schedule| == n * (rounds * (2 * n + 3)) ==>
              forall i :: 0 <= i < n ==> s.parties[i].phase.Idle? && Rounds(s.parties[i]) == rounds
  {
    var s := RunFrom0<P>(n, schedule);
    EffectiveRunSpendsWork(Init<P>(n), rounds, schedule);
    TotalOfFresh(Init<P>(n).parties, n, rounds);
    forall i | 0 <= i < n ensures WorkLeft(s.parties[i], n, rounds) >= 0 { WorkIsNonNegative(s, rounds, i); }
    TotalOfParts(s.parties, n, rounds);
    if |schedule| < n * (rounds * (2 * n + 3)) {
      if forall i: nat :: i < n ==> !CanMove(s, rounds, i) {
        ProgressUntilDone(s, rounds);
        AllDoneNoWork(s.parties, n, rounds);
      }
    } else {
      forall i: nat | i < n ensures s.parties[i].phase.Idle? && Rounds(s.parties[i]) == rounds && !CanMove(s, rounds, i) {
        WorkIsNonNegative(s, rounds, i);
      }
    }
  }

  lemma WorkIsNonNegative<P(!new)>(s: Net<P>, rounds: nat, i: nat)
    requires Inv(s) && WithinRounds(s, rounds) && i < |s.parties|
    ensures WorkLeft(s.parties[i], |s.parties|, rounds) >= 0
    ensures WorkLeft(s.parties[i], |s.parties|, rounds) == 0 ==> s.parties[i].phase.Idle? && Rounds(s.parties[i]) == rounds
  {
    var p, n := s.parties[i], |s.parties|;
    assert Local(p) && HeldOk(s, i, i) && |p.sent| <= rounds;
    var left := rounds - |p.done|;
    if left >= 1 { assert left * (2 * n + 3) == (left - 1) * (2 * n + 3) + (2 * n + 3) && (left - 1) * (2 * n + 3) >= 0; }
  }

  lemma {:induction false} AllDoneNoWork<P>(parties: seq<Party<P>>, n: nat, rounds: nat)
    requires forall i :: 0 <= i < |parties| ==> parties[i].phase.Idle? && Rounds(parties[i]) == rounds
    ensures TotalWork(parties, n, rounds) == 0
  {
    if parties != [] { AllDoneNoWork(parties[1..], n, rounds); }
  }
}
