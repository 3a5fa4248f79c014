/**
 `n` drivers over one mesh, for every state machine and every scheduling: the
 machines emit, consume and stop as they like, the drivers cross boundaries
 when they must, and the mesh moves one send or one receive at a time.
 */
module DriverNet {
  import opened Basics
  import opened Codec
  import opened Driver
  import opened Mesh

  /** How a driver stands: running, ended by its machine, or returned with one
      of the loop's own errors. */
  datatype Status = Live | Halted | CannotSeal | CannotOpen | NoProgress

  /** One party. `emits` is what its machine sent since the last boundary,
      `handed` what it has been given so far, `rounds` what it had sent at each
      earlier boundary, `inboxes` what each completed exchange queued. */
  datatype Node<M> = Node(
    emits: seq<Emit<M>>,
    incoming: seq<Incoming<M>>,
    handed: seq<Incoming<M>>,
    nextId: nat,
    status: Status,
    rounds: seq<seq<Emit<M>>>,
    inboxes: seq<seq<Incoming<M>>>)

  datatype Sys<M> = Sys(domain: Bytes, net: Net<Packet<M>>, nodes: seq<Node<M>>)

  function SysInit<M>(domain: Bytes, n: nat): Sys<M> {
    Sys(domain, Init(n), seq(n, _ => Node([], [], [], 0, Live, [], [])))
  }

  // -------------------------------------------------------------- transitions

  datatype Move<M> =
    | EmitMove(party: nat, emit: Emit<M>)
    | PopMove(party: nat)
    | BoundaryMove(party: nat)
    | HaltMove(party: nat)
    | NetMove(party: nat)

  /** The machine of `i` is running: not stopped and not inside an exchange. */
  predicate Running<M>(s: Sys<M>, i: nat) {
    i < |s.nodes| && s.nodes[i].status == Live && i < |s.net.parties| && s.net.parties[i].phase.Idle?
  }

  predicate Sealable<M>(domain: Bytes, emits: seq<Emit<M>>, n: nat) {
    forall t :: t in BufferAll(emits).p2p ==> t < n && |domain| < 0x1_0000_0000
  }

  function Pop<M>(node: Node<M>): Node<M>
    requires node.incoming != []
  {
    node.(incoming := node.incoming[1..], handed := node.handed + [node.incoming[0]])
  }

  function Boundary<M>(s: Sys<M>, i: nat): Sys<M>
    requires Running(s, i)
  {
    var node := s.nodes[i];
    if !Sealable(s.domain, node.emits, |s.nodes|) then s.(nodes := s.nodes[i := node.(status := CannotSeal)])
    else
      var payload := Seal(s.domain, |node.rounds|, i, BufferAll(node.emits));
      s.(net := Start(s.net, i, payload), nodes := s.nodes[i := node.(emits := [], rounds := node.rounds + [node.emits])])
  }

  /** Party `i` has just completed an exchange: open it and queue it. */
  function Finish<M>(s: Sys<M>, i: nat): Sys<M>
    requires i < |s.nodes| && i < |s.net.parties| && s.net.parties[i].done != [] && s.nodes[i].rounds != []
  {
    var node, p := s.nodes[i], s.net.parties[i];
    var all := p.done[|p.done| - 1];
    match Arrivals(s.domain, |node.inboxes|, i, all, 0, node.nextId)
    case None => s.(nodes := s.nodes[i := node.(status := CannotOpen, inboxes := node.inboxes + [[]])])
    case Some(got) =>
      var stuck := !SentSomething(BufferAll(node.rounds[|node.rounds| - 1])) && got == [];
      s.(nodes := s.nodes[i := node.(incoming := node.incoming + got, nextId := node.nextId + |got|,
                                     status := if stuck then NoProgress else Live, inboxes := node.inboxes + [got])])
  }

  ghost function NetStep<M(!new)>(s: Sys<M>, i: nat): Sys<M>
    requires SysInv(s) && CanStep(s.net, i)
  {
    StepReady(s.net, i);
    var s' := s.(net := Step(s.net, i));
    if !s'.net.parties[i].phase.Idle? then s'
    else
      assert Local(s.net.parties[i]) && SealedInOrder(s, i);
      Finish(s', i)
  }

  ghost function Next<M(!new)>(s: Sys<M>, m: Move<M>): Sys<M>
    requires SysInv(s)
  {
    var i := m.party;
    match m
    case EmitMove(_, e) => if Running(s, i) then s.(nodes := s.nodes[i := s.nodes[i].(emits := s.nodes[i].emits + [e])]) else s
    case PopMove(_) =>
      if Running(s, i) && s.nodes[i].incoming != []
      then s.(nodes := s.nodes[i := Pop(s.nodes[i])]) else s
    case BoundaryMove(_) => if Running(s, i) && s.nodes[i].incoming == [] then Boundary(s, i) else s
    case HaltMove(_) => if Running(s, i) then s.(nodes := s.nodes[i := s.nodes[i].(status := Halted)]) else s
    case NetMove(_) => if CanStep(s.net, i) then NetStep(s, i) else s
  }

  // ----------------------------------------------------------------- expected

  /** What party `j` had buffered when it crossed its `r`-th boundary. */
  function OutAt<M>(nodes: seq<Node<M>>, j: nat, r: nat): Outbox<M>
    requires j < |nodes|
  {
    if r < |nodes[j].rounds| then BufferAll(nodes[j].rounds[r]) else Outbox(None, map[])
  }

  /** What `from` buffered for `me`, queued from number `id`. */
  function ForMe<M>(out: Outbox<M>, me: nat, from: nat, id: nat): seq<Incoming<M>> {
    Queued(Opened(out.broadcast, if me in out.p2p then Some(out.p2p[me]) else None), from, id)
  }

  /** The queue that round `r` should leave at `me`: from each other party in
      index order, what that party buffered for it in its own round `r`. */
  function Expected<M>(nodes: seq<Node<M>>, me: nat, r: nat, from: nat, id: nat): seq<Incoming<M>>
    requires from <= |nodes|
    decreases |nodes| - from
  {
    if from == |nodes| then []
    else if from == me then Expected(nodes, me, r, from + 1, id)
    else
      var here := ForMe(OutAt(nodes, from, r), me, from, id);
      here + Expected(nodes, me, r, from + 1, id + |here|)
  }

  function StartId<M>(inboxes: seq<seq<Incoming<M>>>, r: nat): nat
    requires r <= |inboxes|
  {
    if r == 0 then 0 else StartId(inboxes, r - 1) + |inboxes[r - 1]|
  }

  // ---------------------------------------------------------------- invariant

  ghost predicate SealedInOrder<M(!new)>(s: Sys<M>, i: nat)
    requires i < |s.nodes| && i < |s.net.parties|
  {
    var node, p := s.nodes[i], s.net.parties[i];
    && |node.rounds| == |p.sent|
    && (forall r :: 0 <= r < |p.sent| ==> p.sent[r] == Seal(s.domain, r, i, BufferAll(node.rounds[r])))
  }

  ghost predicate QueuedAsExpected<M(!new)>(s: Sys<M>, i: nat)
    requires i < |s.nodes| && i < |s.net.parties|
  {
    var node, p := s.nodes[i], s.net.parties[i];
    && |node.inboxes| == |p.done|
    && node.nextId == StartId(node.inboxes, |node.inboxes|)
    && (forall r :: 0 <= r < |node.inboxes| ==> node.inboxes[r] == Expected(s.nodes, i, r, 0, StartId(node.inboxes, r)))
  }

  function Flat<T>(parts: seq<seq<T>>): seq<T> {
    if parts == [] then [] else Flat(parts[..|parts| - 1]) + parts[|parts| - 1]
  }

  /** The exchange a driver completed last moved nothing: its machine had sent
      nothing and nothing arrived. */
  predicate Silent<M>(node: Node<M>)
    requires |node.inboxes| <= |node.rounds|
  {
    var r := |node.inboxes| - 1;
    r >= 0 && node.rounds[r] == [] && node.inboxes[r] == []
  }

  /** No box ever failed to open, what the machine was handed and what is still
      queued are together all that was ever queued, in order, nothing is queued
      during an exchange, and a driver gives up for want of progress exactly
      after a silent one. */
  predicate ConsumesInOrder<M(==)>(node: Node<M>) {
    && node.status != CannotOpen && node.handed + node.incoming == Flat(node.inboxes)
    && |node.inboxes| <= |node.rounds| && (node.status == NoProgress <==> Silent(node))
    && (|node.inboxes| < |node.rounds| ==> node.incoming == [])
  }

  ghost predicate SysInv<M(!new)>(s: Sys<M>) {
    && Mesh.Inv(s.net) && |s.nodes| == |s.net.parties|
    && (forall i :: 0 <= i < |s.nodes| ==> ConsumesInOrder(s.nodes[i]))
    && (forall i :: 0 <= i < |s.nodes| ==> SealedInOrder(s, i))
    && (forall i :: 0 <= i < |s.nodes| ==> QueuedAsExpected(s, i))
  }

  lemma SysInitInv<M(!new)>(domain: Bytes, n: nat)
    ensures SysInv(SysInit<M>(domain, n))
  {
    InitInv<Packet<M>>(n);
  }

  lemma {:induction false} ExpectedStable<M(!new)>(a: seq<Node<M>>, b: seq<Node<M>>, me: nat, r: nat, from: nat, id: nat)
    requires |a| == |b| && from <= |a| && forall j: nat :: j < |a| ==> OutAt(a, j, r) == OutAt(b, j, r)
    ensures Expected(a, me, r, from, id) == Expected(b, me, r, from, id)
    decreases |a| - from
  {
    hide ForMe, OutAt;
    if from < |a| {
      if from == me { ExpectedStable(a, b, me, r, from + 1, id); }
      else {
        assert OutAt(a, from, r) == OutAt(b, from, r);
        ExpectedStable(a, b, me, r, from + 1, id + |ForMe(OutAt(a, from, r), me, from, id)|);
      }
    }
  }

  lemma OpenForMe<M>(domain: Bytes, r: nat, from: nat, me: nat, out: Outbox<M>, id: nat)
    ensures var o := Open(domain, r, from, me, Seal(domain, r, from, out)); o.Some? && Queued(o.value, from, id) == ForMe(out, me, from, id)
  {
    OpenUndoesSeal(domain, r, from, me, out);
  }

  /** Payloads sealed for round `r` open, and hold exactly what is expected. */
  lemma {:induction false} ArrivalsAreExpected<M(!new)>(domain: Bytes, nodes: seq<Node<M>>, me: nat, r: nat,
                                                         all: seq<Packet<M>>, from: nat, id: nat)
    requires |all| == |nodes| && from <= |nodes|
    requires forall j: nat :: j < |nodes| ==> all[j] == Seal(domain, r, j, OutAt(nodes, j, r))
    ensures Arrivals(domain, r, me, all, from, id) == Some(Expected(nodes, me, r, from, id))
    decreases |nodes| - from
  {
    hide Arrivals, Expected, Open, Seal, Queued, ForMe, OutAt;
    ArrivalsUnfold(domain, r, me, all, from, id);
    ExpectedUnfold(nodes, me, r, from, id);
    if from == me < |nodes| {
      ArrivalsAreExpected(domain, nodes, me, r, all, from + 1, id);
    } else if from < |nodes| {
      assert all[from] == Seal(domain, r, from, OutAt(nodes, from, r));
      OpenForMe(domain, r, from, me, OutAt(nodes, from, r), id);
      ArrivalsAreExpected(domain, nodes, me, r, all, from + 1, id + |ForMe(OutAt(nodes, from, r), me, from, id)|);
    }
  }

  lemma ArrivalsUnfold<M>(domain: Bytes, r: nat, me: nat, all: seq<Packet<M>>, from: nat, id: nat)
    requires from <= |all|
    ensures from == |all| ==> Arrivals(domain, r, me, all, from, id) == Some([])
    ensures from == me < |all| ==> Arrivals(domain, r, me, all, from, id) == Arrivals(domain, r, me, all, from + 1, id)
    ensures from < |all| && from != me && Open(domain, r, from, me, all[from]).Some? ==>
              var here := Queued(Open(domain, r, from, me, all[from]).value, from, id);
              Arrivals(domain, r, me, all, from, id) == Prepend(here, Arrivals(domain, r, me, all, from + 1, id + |here|))
  {
    hide Open, Queued, Prepend;
  }

  lemma ExpectedUnfold<M>(nodes: seq<Node<M>>, me: nat, r: nat, from: nat, id: nat)
    requires from <= |nodes|
    ensures from == |nodes| ==> Expected(nodes, me, r, from, id) == []
    ensures from == me < |nodes| ==> Expected(nodes, me, r, from, id) == Expected(nodes, me, r, from + 1, id)
    ensures from < |nodes| && from != me ==>
              var here := ForMe(OutAt(nodes, from, r), me, from, id);
              Expected(nodes, me, r, from, id) == here + Expected(nodes, me, r, from + 1, id + |here|)
  {
    hide ForMe, OutAt;
  }

  // ------------------------------------------------------------- preservation

  /** Party `k` crossed at most one boundary, sealing what it had buffered. */
  ghost predicate Grew<M(!new)>(s: Sys<M>, s': Sys<M>, k: nat)
    requires k < |s.nodes| == |s.net.parties| == |s'.nodes| == |s'.net.parties|
  {
    var a, b, p, q := s.nodes[k], s'.nodes[k], s.net.parties[k], s'.net.parties[k];
    (b.rounds == a.rounds && q.sent == p.sent) ||
    exists e :: b.rounds == a.rounds + [e] && q.sent == p.sent + [Seal(s.domain, |a.rounds|, k, BufferAll(e))]
  }

  /** Party `k` completed at most one exchange, queueing what it should. */
  ghost predicate Heard<M(!new)>(s: Sys<M>, s': Sys<M>, k: nat)
    requires k < |s.nodes| == |s.net.parties| == |s'.nodes| == |s'.net.parties|
  {
    var a, b, p, q := s.nodes[k], s'.nodes[k], s.net.parties[k], s'.net.parties[k];
    (b.inboxes == a.inboxes && b.nextId == a.nextId && |q.done| == |p.done|) ||
    (var got := Expected(s.nodes, k, |a.inboxes|, 0, a.nextId);
     b.inboxes == a.inboxes + [got] && b.nextId == a.nextId + |got| && |q.done| == |p.done| + 1)
  }

  ghost predicate Evolves<M(!new)>(s: Sys<M>, s': Sys<M>) {
    && s'.domain == s.domain && |s.nodes| == |s.net.parties| == |s'.nodes| == |s'.net.parties|
    && (forall k: nat :: k < |s.nodes| ==> Grew(s, s', k))
    && (forall k: nat :: k < |s.nodes| ==> Heard(s, s', k))
    && (forall k: nat, j: nat :: k < |s.nodes| && j < |s.nodes| ==> |s'.nodes[k].inboxes| <= |s.nodes[j].rounds|)
  }

  lemma EvolvesInv<M(!new)>(s: Sys<M>, s': Sys<M>)
    requires SysInv(s) && Mesh.Inv(s'.net) && Evolves(s, s')
    requires forall k :: 0 <= k < |s'.nodes| ==> ConsumesInOrder(s'.nodes[k])
    ensures SysInv(s')
  {
    hide Mesh.Inv, SealedInOrder, QueuedAsExpected, Grew, Heard, ConsumesInOrder;
    forall k | 0 <= k < |s'.nodes| ensures SealedInOrder(s', k) && QueuedAsExpected(s', k) {
      SealedStaysInOrder(s, s', k);
      QueuedStaysExpected(s, s', k);
    }
  }

  lemma SealedStaysInOrder<M(!new)>(s: Sys<M>, s': Sys<M>, k: nat)
    requires |s.nodes| == |s.net.parties| == |s'.nodes| == |s'.net.parties| && k < |s.nodes| && s'.domain == s.domain
    requires SealedInOrder(s, k) && Grew(s, s', k)
    ensures SealedInOrder(s', k)
  {
    hide Seal, BufferAll;
  }

  lemma OutIsStable<M(!new)>(s: Sys<M>, s': Sys<M>, j: nat, r: nat)
    requires |s.nodes| == |s.net.parties| == |s'.nodes| == |s'.net.parties| && j < |s.nodes|
    requires Grew(s, s', j) && r < |s.nodes[j].rounds|
    ensures OutAt(s.nodes, j, r) == OutAt(s'.nodes, j, r)
  {
    hide BufferAll, Seal;
  }

  lemma {:induction false} StartIdStable<M>(inboxes: seq<seq<Incoming<M>>>, more: seq<Incoming<M>>, r: nat)
    requires r <= |inboxes|
    ensures StartId(inboxes + [more], r) == StartId(inboxes, r)
  {
    if r > 0 { StartIdStable(inboxes, more, r - 1); }
  }

  lemma ExpectedUnmoved<M(!new)>(s: Sys<M>, s': Sys<M>, k: nat, r: nat, id: nat)
    requires Evolves(s, s') && k < |s.nodes| && r < |s'.nodes[k].inboxes|
    ensures Expected(s'.nodes, k, r, 0, id) == Expected(s.nodes, k, r, 0, id)
  {
    hide Grew, Heard, Expected, OutAt;
    forall j: nat | j < |s.nodes| ensures OutAt(s.nodes, j, r) == OutAt(s'.nodes, j, r) {
      assert Grew(s, s', j) && |s'.nodes[k].inboxes| <= |s.nodes[j].rounds|;
      OutIsStable(s, s', j, r);
    }
    ExpectedStable(s.nodes, s'.nodes, k, r, 0, id);
  }

  lemma StartIdLast<M>(inboxes: seq<seq<Incoming<M>>>, more: seq<Incoming<M>>)
    ensures StartId(inboxes + [more], |inboxes| + 1) == StartId(inboxes, |inboxes|) + |more|
  {
    StartIdStable(inboxes, more, |inboxes|);
  }

  lemma QueuedStaysExpected<M(!new)>(s: Sys<M>, s': Sys<M>, k: nat)
    requires Evolves(s, s') && k < |s.nodes| && QueuedAsExpected(s, k)
    ensures QueuedAsExpected(s', k)
  {
    hide Grew, Expected, OutAt, StartId, Evolves;
    assert Heard(s, s', k) by { HeardAt(s, s', k); }
    var ib, ib' := s.nodes[k].inboxes, s'.nodes[k].inboxes;
    if |ib'| > |ib| { StartIdLast(ib, ib'[|ib|]); }
    forall r | 0 <= r < |ib'| ensures ib'[r] == Expected(s'.nodes, k, r, 0, StartId(ib', r)) {
      if |ib'| > |ib| { StartIdStable(ib, ib'[|ib|], r); }
      ExpectedUnmoved(s, s', k, r, StartId(ib', r));
    }
  }

  lemma HeardAt<M(!new)>(s: Sys<M>, s': Sys<M>, k: nat)
    requires Evolves(s, s') && k < |s.nodes|
    ensures |s.nodes| == |s.net.parties| == |s'.nodes| == |s'.net.parties| && s'.domain == s.domain && Heard(s, s', k)
  {
  }

  /** Every party's `r`-th boundary lies behind any completed round `r`. */
  lemma RoundsStarted<M(!new)>(s: Sys<M>, net: Net<Packet<M>>, i: nat, j: nat)
    requires SysInv(s) && Mesh.Inv(net) && |net.parties| == |s.nodes| && i < |s.nodes| && j < |s.nodes|
    requires net.parties[j].sent == s.net.parties[j].sent
    ensures |net.parties[i].done| <= |s.nodes[j].rounds|
  {
    assert SealedInOrder(s, j) && HeldOk(net, i, j);
  }

  /** A node's buffers, queue head and flags moved; nothing else did. */
  lemma NodeMoveInv<M(!new)>(s: Sys<M>, i: nat, node: Node<M>)
    requires SysInv(s) && i < |s.nodes|
    requires node.rounds == s.nodes[i].rounds && node.inboxes == s.nodes[i].inboxes && node.nextId == s.nodes[i].nextId
    requires ConsumesInOrder(node)
    ensures SysInv(s.(nodes := s.nodes[i := node]))
  {
    hide Mesh.Inv, Expected, ConsumesInOrder;
    var s' := s.(nodes := s.nodes[i := node]);
    forall k: nat, j: nat | k < |s.nodes| && j < |s.nodes| ensures |s'.nodes[k].inboxes| <= |s.nodes[j].rounds| {
      assert QueuedAsExpected(s, k);
      RoundsStarted(s, s.net, k, j);
    }
    EvolvesInv(s, s');
  }

  lemma BoundaryInv<M(!new)>(s: Sys<M>, i: nat)
    requires SysInv(s) && Running(s, i) && s.nodes[i].incoming == []
    ensures SysInv(Boundary(s, i))
  {
    var node := s.nodes[i];
    assert ConsumesInOrder(node);
    if !Sealable(s.domain, node.emits, |s.nodes|) {
      NodeMoveInv(s, i, node.(status := CannotSeal));
    } else {
      hide Expected, Seal, BufferAll, Sealable;
      var s' := Boundary(s, i);
      BoundaryConsumes(node, s'.nodes[i]);
      StartInv(s.net, i, Seal(s.domain, |node.rounds|, i, BufferAll(node.emits)));
      hide Mesh.Inv;
      forall k: nat, j: nat | k < |s.nodes| && j < |s.nodes| ensures |s'.nodes[k].inboxes| <= |s.nodes[j].rounds| {
        assert QueuedAsExpected(s, k);
        RoundsStarted(s, s.net, k, j);
      }
      EvolvesInv(s, s');
    }
  }

  /** The exchange that completes hands `i` every party's payload of that very
      round, so every box opens and the queue is the expected one. */
  lemma FinishedRound<M(!new)>(s: Sys<M>, i: nat)
    requires SysInv(s) && CanStep(s.net, i) && SlotsReady(s.net, i) && Step(s.net, i).parties[i].phase.Idle?
    ensures var p, node := Step(s.net, i).parties[i], s.nodes[i];
            |p.done| == |node.inboxes| + 1 && node.rounds != [] && |node.rounds| == |node.inboxes| + 1 &&
            Arrivals(s.domain, |node.inboxes|, i, p.done[|p.done| - 1], 0, node.nextId) ==
              Some(Expected(s.nodes, i, |node.inboxes|, 0, node.nextId))
  {
    var net' := Step(s.net, i);
    StepInv(s.net, i);
    var r := |s.nodes[i].inboxes|;
    assert SealedInOrder(s, i) && QueuedAsExpected(s, i) && Local(s.net.parties[i]);
    var all := net'.parties[i].done[r];
    assert HeldOk(net', i, i);
    forall j: nat | j < |s.nodes| ensures all[j] == Seal(s.domain, r, j, OutAt(s.nodes, j, r)) {
      assert HeldOk(net', i, j) && SealedInOrder(s, j);
      assert net'.parties[j].sent == s.net.parties[j].sent;
    }
    ArrivalsAreExpected(s.domain, s.nodes, i, r, all, 0, s.nodes[i].nextId);
  }

  lemma NetStepInv<M(!new)>(s: Sys<M>, i: nat)
    requires SysInv(s) && CanStep(s.net, i)
    ensures SysInv(NetStep(s, i))
  {
    StepReady(s.net, i);
    StepInv(s.net, i);
    NetStepEvolves(s, i);
    NetStepConsumes(s, i);
    EvolvesInv(s, NetStep(s, i));
  }

  lemma NetStepResult<M(!new)>(s: Sys<M>, i: nat)
    requires SysInv(s) && CanStep(s.net, i) && SlotsReady(s.net, i)
    requires Step(s.net, i).parties[i].phase.Idle? ==>
               var p, node := Step(s.net, i).parties[i], s.nodes[i];
               |p.done| == |node.inboxes| + 1 && node.rounds != [] &&
               |node.rounds| == |node.inboxes| + 1 &&
               Arrivals(s.domain, |node.inboxes|, i, p.done[|p.done| - 1], 0, node.nextId) ==
                 Some(Expected(s.nodes, i, |node.inboxes|, 0, node.nextId))
    ensures var s', got := NetStep(s, i), Expected(s.nodes, i, |s.nodes[i].inboxes|, 0, s.nodes[i].nextId);
            var a, b := s.nodes[i], s'.nodes[i];
            s'.domain == s.domain && s'.net == Step(s.net, i) && |s'.nodes| == |s.nodes| && b.rounds == a.rounds &&
            (forall k :: 0 <= k < |s.nodes| && k != i ==> s'.nodes[k] == s.nodes[k]) &&
            (if Step(s.net, i).parties[i].phase.Idle?
             then a.rounds != [] && b.inboxes == a.inboxes + [got] && b.nextId == a.nextId + |got| &&
                  b.incoming == a.incoming + got && b.handed == a.handed &&
                  b.status == (if a.rounds[|a.rounds| - 1] == [] && got == [] then NoProgress else Live)
             else b == a)
  {
    hide Arrivals, Expected, SentSomething, BufferAll, Mesh.Inv, SealedInOrder, QueuedAsExpected, ConsumesInOrder;
    NetShape(s);
    if Step(s.net, i).parties[i].phase.Idle? { SentIffEmitted(s.nodes[i].rounds[|s.nodes[i].rounds| - 1]); }
  }

  lemma NetStepEvolves<M(!new)>(s: Sys<M>, i: nat)
    requires SysInv(s) && CanStep(s.net, i) && SlotsReady(s.net, i) && Mesh.Inv(Step(s.net, i))
    ensures Evolves(s, NetStep(s, i)) && NetStep(s, i).net == Step(s.net, i)
  {
    hide Arrivals, Expected, BufferAll, Seal, Step, Mesh.Inv, CanStep, SlotsReady, SealedInOrder, NetStep, Shaped, ConsumesInOrder;
    NetShape(s);
    StepParts(s.net, i);
    if Step(s.net, i).parties[i].phase.Idle? { FinishedRound(s, i); }
    NetStepResult(s, i);
    assert QueuedAsExpected(s, i);
    var s' := NetStep(s, i);
    forall k: nat, j: nat | k < |s.nodes| && j < |s.nodes| ensures |s'.nodes[k].inboxes| <= |s.nodes[j].rounds| {
      assert QueuedAsExpected(s, k);
      RoundsStarted(s, s'.net, k, j);
    }
  }

  lemma NetStepConsumes<M(!new)>(s: Sys<M>, i: nat)
    requires SysInv(s) && CanStep(s.net, i) && SlotsReady(s.net, i)
    ensures |NetStep(s, i).nodes| == |s.nodes| && forall k :: 0 <= k < |s.nodes| ==> ConsumesInOrder(NetStep(s, i).nodes[k])
  {
    hide Arrivals, Expected, BufferAll, Seal, Step, Mesh.Inv, CanStep, SlotsReady, SealedInOrder, QueuedAsExpected, NetStep, Shaped,
         ConsumesInOrder;
    NetShape(s);
    StepParts(s.net, i);
    var a, s' := s.nodes[i], NetStep(s, i);
    if Step(s.net, i).parties[i].phase.Idle? {
      FinishedRound(s, i);
      NetStepResult(s, i);
      QueueGrows(a, s'.nodes[i], Expected(s.nodes, i, |a.inboxes|, 0, a.nextId));
    } else {
      NetStepResult(s, i);
    }
  }

  lemma QueueGrows<M>(a: Node<M>, b: Node<M>, got: seq<Incoming<M>>)
    requires ConsumesInOrder(a) && |a.rounds| == |a.inboxes| + 1 && b.rounds == a.rounds
    requires b.status == if a.rounds[|a.rounds| - 1] == [] && got == [] then NoProgress else Live
    requires b.handed == a.handed && b.incoming == a.incoming + got && b.inboxes == a.inboxes + [got]
    ensures ConsumesInOrder(b)
  {
    assert b.inboxes[..|a.inboxes|] == a.inboxes;
    assert a.handed + (a.incoming + got) == (a.handed + a.incoming) + got;
  }

  /** Sealing the buffers leaves the last completed exchange as it was. */
  lemma BoundaryConsumes<M>(a: Node<M>, b: Node<M>)
    requires ConsumesInOrder(a) && a.incoming == [] && b == a.(emits := [], rounds := a.rounds + [a.emits])
    ensures ConsumesInOrder(b)
  {
  }

  lemma PopConsumes<M>(node: Node<M>)
    requires ConsumesInOrder(node) && node.incoming != []
    ensures ConsumesInOrder(Pop(node))
  {
    assert node.incoming == [node.incoming[0]] + node.incoming[1..];
    assert (node.handed + [node.incoming[0]]) + node.incoming[1..] == node.handed + node.incoming;
  }

  lemma NetShape<M(!new)>(s: Sys<M>)
    requires SysInv(s)
    ensures Shaped(s.net) && |s.nodes| == |s.net.parties|
  {
  }

  lemma StepParts<P(!new)>(s: Net<P>, i: nat)
    requires Mesh.Inv(s) && CanStep(s, i) && SlotsReady(s, i)
    ensures var s' := Step(s, i);
            i < |s.parties| == |s'.parties| && (forall k :: 0 <= k < |s.parties| && k != i ==> s'.parties[k] == s.parties[k]) &&
            s'.parties[i].sent == s.parties[i].sent &&
            |s'.parties[i].done| == |s.parties[i].done| + (if s'.parties[i].phase.Idle? then 1 else 0)
  {
  }

  lemma NextInv<M(!new)>(s: Sys<M>, m: Move<M>)
    requires SysInv(s)
    ensures SysInv(Next(s, m))
  {
    var i := m.party;
    if i < |s.nodes| { assert ConsumesInOrder(s.nodes[i]); }
    match m {
      case EmitMove(_, e) => if Running(s, i) { NodeMoveInv(s, i, s.nodes[i].(emits := s.nodes[i].emits + [e])); }
      case PopMove(_) => if Running(s, i) && s.nodes[i].incoming != [] { PopConsumes(s.nodes[i]); NodeMoveInv(s, i, Pop(s.nodes[i])); }
      case BoundaryMove(_) => if Running(s, i) && s.nodes[i].incoming == [] { BoundaryInv(s, i); }
      case HaltMove(_) => if Running(s, i) { NodeMoveInv(s, i, s.nodes[i].(status := Halted)); }
      case NetMove(_) => if CanStep(s.net, i) { NetStepInv(s, i); }
    }
  }

  // ------------------------------------------------------------- main results

  ghost function SysRun<M(!new)>(s: Sys<M>, moves: seq<Move<M>>): (s': Sys<M>)
    requires SysInv(s)
    ensures SysInv(s')
    decreases |moves|
  {
    if moves == [] then s
    else
      NextInv(s, moves[0]);
      SysRun(Next(s, moves[0]), moves[1..])
  }

  ghost function Reached<M(!new)>(domain: Bytes, n: nat, moves: seq<Move<M>>): (s: Sys<M>)
    ensures SysInv(s)
  {
    SysInitInv<M>(domain, n);
    SysRun(SysInit(domain, n), moves)
  }

  /** In every run, the `r`-th queue of every party is exactly what the others
      had buffered for it at their own `r`-th boundary, in party order, numbered
      consecutively. */
  lemma DriversDeliverExactly<M(!new)>(domain: Bytes, n: nat, moves: seq<Move<M>>, i: nat, r: nat)
    requires i < |Reached<M>(domain, n, moves).nodes| && r < |Reached<M>(domain, n, moves).nodes[i].inboxes|
    ensures var s := Reached<M>(domain, n, moves);
            s.nodes[i].inboxes[r] == Expected(s.nodes, i, r, 0, StartId(s.nodes[i].inboxes, r)) &&
            forall j :: 0 <= j < |s.nodes| ==> r < |s.nodes[j].rounds|
  {
    var s := Reached<M>(domain, n, moves);
    assert QueuedAsExpected(s, i);
    forall j: nat | j < |s.nodes| ensures r < |s.nodes[j].rounds| { RoundsStarted(s, s.net, i, j); }
  }

  /** In every run, what the `r`-th completed exchange of `i` holds from `j` is
      what `j` sealed at its own `r`-th boundary, and a box in it opens under
      that domain, round, sender and recipient and under no other. */
  lemma BoxesAreBoundInEveryRun<M(!new)>(domain: Bytes, n: nat, moves: seq<Move<M>>, i: nat, j: nat, r: u64, t: u16,
                                         d': Bytes, r': u64, s': u16, t': u16)
    requires n <= 0x1_0000 && |domain| < 0x1_0000_0000 && |d'| < 0x1_0000_0000
    requires var s := Reached<M>(domain, n, moves);
             i < |s.nodes| && j < |s.nodes| && r < |s.nodes[i].inboxes|
    ensures var s := Reached<M>(domain, n, moves);
            |s.nodes| == n && r < |s.nodes[j].rounds| &&
            i < |s.net.parties| && r < |s.net.parties[i].done| && j < |s.net.parties[i].done[r]| &&
            var out, packet := BufferAll(s.nodes[j].rounds[r]), s.net.parties[i].done[r][j];
            packet == Seal(domain, r, j, out) && (t in packet.p2p <==> t in out.p2p) &&
            (t in packet.p2p ==> OpenBox(packet.p2p[t], InfoOf(d', r', s', t')) ==
                                 if (d', r', s', t') == (domain, r, j, t) then Some(out.p2p[t]) else None)
  {
    var s := Reached<M>(domain, n, moves);
    ReachedShape<M>(domain, n, moves);
    assert QueuedAsExpected(s, i) && HeldOk(s.net, i, j) && SealedInOrder(s, j);
    var out := BufferAll(s.nodes[j].rounds[r]);
    if t in out.p2p { BoxIsBound(out.p2p[t], domain, r, j, t, d', r', s', t'); }
  }

  lemma {:induction false} RunShape<M(!new)>(s: Sys<M>, moves: seq<Move<M>>)
    requires SysInv(s)
    ensures SysRun(s, moves).domain == s.domain && |SysRun(s, moves).nodes| == |s.nodes|
    decreases |moves|
  {
    hide SysInv, Next;
    if moves != [] {
      NextInv(s, moves[0]);
      NextShape(s, moves[0]);
      RunShape(Next(s, moves[0]), moves[1..]);
    }
  }

  lemma NextShape<M(!new)>(s: Sys<M>, m: Move<M>)
    requires SysInv(s)
    ensures Next(s, m).domain == s.domain && |Next(s, m).nodes| == |s.nodes|
  {
    hide Mesh.Inv, SealedInOrder, QueuedAsExpected, ConsumesInOrder, Arrivals, BufferAll, Seal, Step;
  }

  lemma ReachedShape<M(!new)>(domain: Bytes, n: nat, moves: seq<Move<M>>)
    ensures Reached<M>(domain, n, moves).domain == domain && |Reached<M>(domain, n, moves).nodes| == n
  {
    hide SysInv, SysRun;
    SysInitInv<M>(domain, n);
    RunShape(SysInit<M>(domain, n), moves);
  }

  /** In every run a driver gives up for want of progress exactly when, in the
      exchange it completed last, its machine had sent nothing and no party had
      sent anything to it. */
  lemma GivesUpOnlyInSilence<M(!new)>(domain: Bytes, n: nat, moves: seq<Move<M>>, i: nat)
    requires i < |Reached<M>(domain, n, moves).nodes|
    ensures var node := Reached<M>(domain, n, moves).nodes[i]; var r := |node.inboxes| - 1;
            r < |node.rounds| && (node.status == NoProgress <==> r >= 0 && node.rounds[r] == [] && node.inboxes[r] == [])
  {
    assert ConsumesInOrder(Reached<M>(domain, n, moves).nodes[i]);
  }

  // ------------------------------------------------------------------ numbers

  lemma ForMeNumbered<M>(out: Outbox<M>, me: nat, from: nat, id: nat)
    ensures forall k :: 0 <= k < |ForMe(out, me, from, id)| ==> ForMe(out, me, from, id)[k].id == id + k
  {
  }

  lemma {:induction false} ExpectedNumbered<M(!new)>(nodes: seq<Node<M>>, me: nat, r: nat, from: nat, id: nat)
    requires from <= |nodes|
    ensures forall k :: 0 <= k < |Expected(nodes, me, r, from, id)| ==> Expected(nodes, me, r, from, id)[k].id == id + k
    decreases |nodes| - from
  {
    hide Expected, ForMe, OutAt;
    ExpectedUnfold(nodes, me, r, from, id);
    if from == me < |nodes| {
      ExpectedNumbered(nodes, me, r, from + 1, id);
    } else if from < |nodes| {
      var here := ForMe(OutAt(nodes, from, r), me, from, id);
      ForMeNumbered(OutAt(nodes, from, r), me, from, id);
      ExpectedNumbered(nodes, me, r, from + 1, id + |here|);
    }
  }

  lemma {:induction false} FlatNumbered<M(!new)>(nodes: seq<Node<M>>, me: nat, inboxes: seq<seq<Incoming<M>>>, r: nat)
    requires r <= |inboxes| && forall q :: 0 <= q < r ==> inboxes[q] == Expected(nodes, me, q, 0, StartId(inboxes, q))
    ensures |Flat(inboxes[..r])| == StartId(inboxes, r)
    ensures forall k :: 0 <= k < |Flat(inboxes[..r])| ==> Flat(inboxes[..r])[k].id == k
  {
    hide Expected, Flat, StartId;
    StartIdUnfold(inboxes, r);
    if r == 0 {
      FlatNone<Incoming<M>>();
      assert inboxes[..r] == [];
    } else {
      FlatNumbered(nodes, me, inboxes, r - 1);
      var a, b := Flat(inboxes[..r - 1]), inboxes[r - 1];
      ExpectedNumbered(nodes, me, r - 1, 0, StartId(inboxes, r - 1));
      FlatTake(inboxes, r);
      NumberedAppend(a, b);
      assert Flat(inboxes[..r]) == a + b;
    }
  }

  lemma StartIdUnfold<M>(inboxes: seq<seq<Incoming<M>>>, r: nat)
    requires r <= |inboxes|
    ensures StartId(inboxes, r) == if r == 0 then 0 else StartId(inboxes, r - 1) + |inboxes[r - 1]|
  {
  }

  lemma FlatNone<T>()
    ensures Flat<T>([]) == []
  {
  }

  lemma FlatTake<T>(parts: seq<seq<T>>, r: nat)
    requires 0 < r <= |parts|
    ensures Flat(parts[..r]) == Flat(parts[..r - 1]) + parts[r - 1]
  {
    assert parts[..r][..r - 1] == parts[..r - 1];
  }

  lemma NumberedAppend<M>(a: seq<Incoming<M>>, b: seq<Incoming<M>>)
    requires forall k :: 0 <= k < |a| ==> a[k].id == k
    requires forall k :: 0 <= k < |b| ==> b[k].id == |a| + k
    ensures forall k :: 0 <= k < |a + b| ==> (a + b)[k].id == k
  {
  }

  /** In every run the messages queued at a party are numbered 0, 1, 2 and so
      on, over all its exchanges. */
  lemma NumbersRunOn<M(!new)>(domain: Bytes, n: nat, moves: seq<Move<M>>, i: nat, k: nat)
    requires i < |Reached<M>(domain, n, moves).nodes| && k < |Flat(Reached<M>(domain, n, moves).nodes[i].inboxes)|
    ensures Flat(Reached<M>(domain, n, moves).nodes[i].inboxes)[k].id == k
  {
    hide Expected, Reached;
    var s := Reached<M>(domain, n, moves);
    assert QueuedAsExpected(s, i);
    var inboxes := s.nodes[i].inboxes;
    FlatNumbered(s.nodes, i, inboxes, |inboxes|);
    assert inboxes[..|inboxes|] == inboxes;
  }

  // ----------------------------------------------------------------- progress

  /** A move that brings party `i` forward: a send or receive of its exchange,
      or, while it is short of its rounds, taking the next queued message or
      crossing the boundary. */
  ghost predicate CanAdvance<M(!new)>(s: Sys<M>, rounds: nat, i: nat)
    requires SysInv(s)
  {
    CanStep(s.net, i) || (Running(s, i) && |s.nodes[i].inboxes| < rounds)
  }

  ghost function Advance<M(!new)>(s: Sys<M>, i: nat): Move<M>
    requires SysInv(s) && i < |s.nodes|
  {
    if CanStep(s.net, i) then NetMove(i) else if s.nodes[i].incoming != [] then PopMove(i) else BoundaryMove(i)
  }

  /** As long as some party is short of its rounds and none has stopped before
      completing them, some party can advance, and doing so changes its state;
      a sealable boundary really starts the next exchange. */
  lemma DriversProgress<M(!new)>(s: Sys<M>, rounds: nat) returns (i: nat)
    requires SysInv(s)
    requires forall k :: 0 <= k < |s.nodes| ==> |s.nodes[k].rounds| <= rounds
    requires forall k :: 0 <= k < |s.nodes| ==> s.nodes[k].status == Live || |s.nodes[k].inboxes| == rounds
    requires exists k :: 0 <= k < |s.nodes| && |s.nodes[k].inboxes| < rounds
    ensures i < |s.nodes| && CanAdvance(s, rounds, i) && Next(s, Advance(s, i)) != s
    ensures !CanStep(s.net, i) && s.nodes[i].incoming == [] &&
            (forall e :: e in s.nodes[i].emits && e.ToOne? ==> e.recipient < |s.nodes| && |s.domain| < 0x1_0000_0000) ==>
              |Next(s, Advance(s, i)).nodes[i].rounds| == |s.nodes[i].rounds| + 1
  {
    i := SomeoneCanAdvance(s, rounds);
    AdvanceMoves(s, rounds, i);
    SealableIff(s.domain, s.nodes[i].emits, |s.nodes|);
  }

  /** A round can be sealed exactly when every direct message of it names a
      party and the domain is short enough to frame. */
  lemma SealableIff<M>(domain: Bytes, emits: seq<Emit<M>>, n: nat)
    ensures Sealable(domain, emits, n) <==> forall e :: e in emits && e.ToOne? ==> e.recipient < n && |domain| < 0x1_0000_0000
  {
    hide BufferAll;
    forall t | t in BufferAll(emits).p2p ensures exists e :: e in emits && e.ToOne? && e.recipient == t {
      BufferedRecipients(emits, t);
    }
    forall e | e in emits && e.ToOne? ensures e.recipient in BufferAll(emits).p2p { BufferedRecipients(emits, e.recipient); }
  }

  lemma {:induction false} BufferedRecipients<M>(emits: seq<Emit<M>>, t: nat)
    ensures t in BufferAll(emits).p2p <==> exists e :: e in emits && e.ToOne? && e.recipient == t
  {
    if emits != [] {
      var front, last := emits[..|emits| - 1], emits[|emits| - 1];
      BufferedRecipients(front, t);
      assert emits == front + [last];
    }
  }

  lemma SomeoneCanAdvance<M(!new)>(s: Sys<M>, rounds: nat) returns (i: nat)
    requires SysInv(s)
    requires forall k :: 0 <= k < |s.nodes| ==> |s.nodes[k].rounds| <= rounds
    requires forall k :: 0 <= k < |s.nodes| ==> s.nodes[k].status == Live || |s.nodes[k].inboxes| == rounds
    requires exists k :: 0 <= k < |s.nodes| && |s.nodes[k].inboxes| < rounds
    ensures i < |s.nodes| && CanAdvance(s, rounds, i)
  {
    if forall k: nat :: k < |s.nodes| ==> !CanAdvance(s, rounds, k) { StuckIsDone(s, rounds); }
    i :| i < |s.nodes| && CanAdvance(s, rounds, i);
  }

  lemma StuckIsDone<M(!new)>(s: Sys<M>, rounds: nat)
    requires SysInv(s)
    requires forall k :: 0 <= k < |s.nodes| ==> |s.nodes[k].rounds| <= rounds
    requires forall k :: 0 <= k < |s.nodes| ==> s.nodes[k].status == Live || |s.nodes[k].inboxes| == rounds
    requires forall k: nat :: k < |s.nodes| ==> !CanAdvance(s, rounds, k)
    ensures forall k :: 0 <= k < |s.nodes| ==> |s.nodes[k].inboxes| == rounds
  {
    forall k: nat | k < |s.nodes| ensures !CanMove(s.net, rounds, k) && |s.net.parties[k].sent| <= rounds {
      assert !CanAdvance(s, rounds, k) && QueuedAsExpected(s, k) && SealedInOrder(s, k);
    }
    ProgressUntilDone(s.net, rounds);
    forall k | 0 <= k < |s.nodes| ensures |s.nodes[k].inboxes| == rounds { assert QueuedAsExpected(s, k); }
  }

  lemma AdvanceMoves<M(!new)>(s: Sys<M>, rounds: nat, i: nat)
    requires SysInv(s) && i < |s.nodes| && CanAdvance(s, rounds, i)
    ensures Next(s, Advance(s, i)) != s
    ensures !CanStep(s.net, i) && s.nodes[i].incoming == [] && Sealable(s.domain, s.nodes[i].emits, |s.nodes|) ==>
              |Next(s, Advance(s, i)).nodes[i].rounds| == |s.nodes[i].rounds| + 1
  {
    if CanStep(s.net, i) { NetStepMoves(s, i); }
    else {
      hide Mesh.Inv, QueuedAsExpected, SealedInOrder, BufferAll, Seal, Sealable, Step;
      var node := s.nodes[i];
      if node.incoming != [] { assert |Pop(node).incoming| != |node.incoming|; }
    }
  }

  lemma NetStepMoves<M(!new)>(s: Sys<M>, i: nat)
    requires SysInv(s) && CanStep(s.net, i)
    ensures NetStep(s, i) != s
  {
    StepReady(s.net, i);
    StepInv(s.net, i);
    NetStepEvolves(s, i);
    PhaseMoves(s.net, i);
  }

  lemma PhaseMoves<P(!new)>(net: Net<P>, i: nat)
    requires Mesh.Inv(net) && CanStep(net, i) && SlotsReady(net, i)
    ensures i < |net.parties| && Step(net, i) != net
  {
    assert Step(net, i).parties[i].phase != net.parties[i].phase;
  }

  /** In every run no driver ever fails to open a box, and every machine has
      been handed exactly an initial part of what its exchanges queued, all of it
      before it is let into the next exchange. */
  lemma MachinesConsumeInOrder<M(!new)>(domain: Bytes, n: nat, moves: seq<Move<M>>, i: nat)
    requires i < |Reached<M>(domain, n, moves).nodes|
    ensures var node := Reached<M>(domain, n, moves).nodes[i];
            node.status != CannotOpen && node.handed + node.incoming == Flat(node.inboxes) &&
            (|node.inboxes| < |node.rounds| ==> node.handed == Flat(node.inboxes))
  {
    var node := Reached<M>(domain, n, moves).nodes[i];
    assert ConsumesInOrder(node);
    if node.incoming == [] { assert node.handed + node.incoming == node.handed; }
  }

  /** The messages of a queue that came from one sender, without their numbers. */
  function From<M>(inbox: seq<Incoming<M>>, sender: nat): seq<(bool, M)> {
    if inbox == [] then []
    else Kept(inbox[0], sender) + From(inbox[1..], sender)
  }

  function Kept<M>(m: Incoming<M>, sender: nat): seq<(bool, M)> {
    if m.sender == sender then [(m.isBroadcast, m.msg)] else []
  }

  lemma {:induction false} FromConcat<M>(a: seq<Incoming<M>>, b: seq<Incoming<M>>, sender: nat)
    ensures From(a + b, sender) == From(a, sender) + From(b, sender)
  {
    hide Kept;
    if a == [] {
      assert a + b == b;
    } else {
      FromConcat(a[1..], b, sender);
      assert (a + b)[1..] == a[1..] + b && (a + b)[0] == a[0];
      assert (Kept(a[0], sender) + From(a[1..], sender)) + From(b, sender) == Kept(a[0], sender) + From((a + b)[1..], sender);
    }
  }

  lemma {:induction false} ExpectedFrom<M(!new)>(nodes: seq<Node<M>>, me: nat, r: nat, from: nat, id: nat, sender: nat)
    requires from <= |nodes| && sender < |nodes|
    ensures From(Expected(nodes, me, r, from, id), sender) ==
            if from <= sender && sender != me then Delivered(OutAt(nodes, sender, r), me) else []
    decreases |nodes| - from
  {
    hide ForMe, From, Delivered, OutAt;
    if from == |nodes| {
      FromNone<M>(sender);
    } else if from == me {
      ExpectedFrom(nodes, me, r, from + 1, id, sender);
    } else {
      var here := ForMe(OutAt(nodes, from, r), me, from, id);
      ExpectedFrom(nodes, me, r, from + 1, id + |here|, sender);
      FromConcat(here, Expected(nodes, me, r, from + 1, id + |here|), sender);
      FromOne(OutAt(nodes, from, r), from, me, id, sender);
    }
  }

  lemma FromNone<M>(sender: nat)
    ensures From<M>([], sender) == []
  {
  }

  lemma FromOne<M>(out: Outbox<M>, from: nat, me: nat, id: nat, sender: nat)
    ensures From(ForMe(out, me, from, id), sender) == if sender == from then Delivered(out, me) else []
  {
    var a: seq<Incoming<M>> := if out.broadcast.Some? then [Incoming(id, from, true, out.broadcast.value)] else [];
    var b: seq<Incoming<M>> := if me in out.p2p then [Incoming(id + |a|, from, false, out.p2p[me])] else [];
    assert ForMe(out, me, from, id) == a + b;
    FromConcat(a, b, sender);
    if a != [] { assert a[1..] == []; }
    if b != [] { assert b[1..] == []; }
  }

  /** Exactly once: when a machine emits at most one broadcast and at most one
      message to a given party between boundaries, that party receives in that
      round precisely the messages addressed to it; and only then. */
  lemma ExactlyOnceIffNoRepeats<M(!new)>(domain: Bytes, n: nat, moves: seq<Move<M>>, i: nat, j: nat, r: nat)
    requires var s := Reached<M>(domain, n, moves);
             i < |s.nodes| && j < |s.nodes| && i != j && r < |s.nodes[i].inboxes|
    ensures var s := Reached<M>(domain, n, moves);
            r < |s.nodes[j].rounds| &&
            var sent := Addressed(s.nodes[j].rounds[r], i);
            multiset(From(s.nodes[i].inboxes[r], j)) == multiset(sent) <==> CountKind(sent, true) <= 1 && CountKind(sent, false) <= 1
  {
    var s := Reached<M>(domain, n, moves);
    DriversDeliverExactly(domain, n, moves, i, r);
    ExpectedFrom(s.nodes, i, r, 0, StartId(s.nodes[i].inboxes, r), j);
    NothingLostIffNoRepeats(s.nodes[j].rounds[r], i);
  }
}
