/**
 The driver loop of one party: it buffers what the state machine sends, and
 only when the machine asks for a message it does not have does it cross a
 round boundary, sealing the buffers into one payload and queueing what the
 other parties' payloads hold for it.
 */
module Driver {
  import opened Basics
  import opened Codec

  datatype Incoming<M> = Incoming(id: nat, sender: nat, isBroadcast: bool, msg: M)

  /** A message the state machine hands over, to everyone or to one party. */
  datatype Emit<M> = ToAll(msg: M) | ToOne(recipient: nat, msg: M)

  function Buffer<M>(out: Outbox<M>, e: Emit<M>): Outbox<M> {
    match e
    case ToAll(m) => out.(broadcast := Some(m))
    case ToOne(j, m) => out.(p2p := out.p2p[j := m])
  }

  function BufferAll<M>(emits: seq<Emit<M>>): Outbox<M> {
    if emits == [] then Outbox(None, map[]) else Buffer(BufferAll(emits[..|emits| - 1]), emits[|emits| - 1])
  }

  predicate SentSomething<M>(out: Outbox<M>) {
    out.broadcast.Some? || out.p2p.Keys != {}
  }

  function Queued<M>(o: Opened<M>, sender: nat, id: nat): seq<Incoming<M>> {
    (if o.broadcast.Some? then [Incoming(id, sender, true, o.broadcast.value)] else []) +
    (if o.p2pToMe.Some? then [Incoming(if o.broadcast.Some? then id + 1 else id, sender, false, o.p2pToMe.value)] else [])
  }

  function Prepend<T>(a: seq<T>, rest: Option<seq<T>>): Option<seq<T>> {
    match rest case None => None case Some(b) => Some(a + b)
  }

  /** Everything the payloads of parties `from` and up hold for us, in party
      order, or `None` if one of them does not open. */
  function Arrivals<M>(domain: Bytes, round: nat, me: nat, all: seq<Packet<M>>, from: nat, id: nat): Option<seq<Incoming<M>>>
    requires from <= |all|
    decreases |all| - from
  {
    if from == |all| then Some([])
    else if from == me then Arrivals(domain, round, me, all, from + 1, id)
    else match Open(domain, round, from, me, all[from])
    case None => None
    case Some(o) =>
      var here := Queued(o, from, id);
      Prepend(here, Arrivals(domain, round, me, all, from + 1, id + |here|))
  }

  /** What the state machine answers when it is asked to proceed. */
  datatype Answer<M> = Finished | Broken | Yielded | SendMsg(emit: Emit<M>) | NeedsMessage

  /** What the loop does next. */
  datatype Turn<M> = Return(ok: bool) | Again | HandOver(msg: Incoming<M>) | Exchange(payload: Packet<M>, weSent: bool)

  class DriverLoop<M> {
    const domain: Bytes
    const me: nat
    const n: nat
    var broadcastOut: Option<M>
    var p2pOut: map<nat, M>
    var incoming: seq<Incoming<M>>
    var nextId: nat
    var round: nat

    function Out(): Outbox<M>
      reads this
    {
      Outbox(broadcastOut, p2pOut)
    }

    constructor (domain: Bytes, me: nat, n: nat)
      ensures Out() == Outbox(None, map[]) && incoming == [] && nextId == 0 && round == 0
      ensures this.domain == domain && this.me == me && this.n == n
    {
      this.domain, this.me, this.n := domain, me, n;
      broadcastOut, p2pOut, incoming, nextId, round := None, map[], [], 0, 0;
    }

    method OnSend(e: Emit<M>)
      modifies this`broadcastOut, this`p2pOut
      ensures Out() == Buffer(old(Out()), e)
    {
      match e {
        case ToAll(m) => broadcastOut := Some(m);
        case ToOne(j, m) => p2pOut := p2pOut[j := m];
      }
    }

    /** The sending half of a round boundary: seal, then clear the buffers. */
    method SealBoundary() returns (payload: Option<Packet<M>>, weSent: bool)
      requires n <= 0x1_0000 && me < n && round < 0x1_0000_0000_0000_0000
      modifies this`broadcastOut, this`p2pOut
      ensures weSent == SentSomething(old(Out()))
      ensures payload == if forall t :: t in old(p2pOut) ==> t < n && |domain| < 0x1_0000_0000
                         then Some(Seal(domain, round, me, old(Out()))) else None
      ensures payload.Some? ==> Out() == Outbox(None, map[])
    {
      weSent := broadcastOut.Some? || p2pOut.Keys != {};
      payload := SealRound(domain, n, round, me, Out());
      if payload.Some? { broadcastOut, p2pOut := None, map[]; }
    }

    /** One pass through the loop, on what the machine answered. A boundary is
        crossed only when the machine wants a message and none is queued. */
    method OnProceed(answer: Answer<M>) returns (turn: Turn<M>)
      requires n <= 0x1_0000 && me < n && round < 0x1_0000_0000_0000_0000
      modifies this`broadcastOut, this`p2pOut, this`incoming
      ensures answer.Finished? ==> turn == Return(true) && unchanged(this)
      ensures answer.Broken? ==> turn == Return(false) && unchanged(this)
      ensures answer.Yielded? ==> turn == Again && unchanged(this)
      ensures answer.SendMsg? ==> turn == Again && Out() == Buffer(old(Out()), answer.emit) && incoming == old(incoming)
      ensures answer.NeedsMessage? && old(incoming) != [] ==>
                turn == HandOver(old(incoming)[0]) && incoming == old(incoming)[1..] && Out() == old(Out())
      ensures answer.NeedsMessage? && old(incoming) == [] ==> incoming == []
      ensures answer.NeedsMessage? && old(incoming) == [] && (forall t :: t in old(p2pOut) ==> t < n && |domain| < 0x1_0000_0000) ==>
                turn == Exchange(Seal(domain, round, me, old(Out())), SentSomething(old(Out()))) && Out() == Outbox(None, map[])
      ensures answer.NeedsMessage? && old(incoming) == [] && !(forall t :: t in old(p2pOut) ==> t < n && |domain| < 0x1_0000_0000) ==>
                turn == Return(false)
    {
      match answer {
        case Finished => turn := Return(true);
        case Broken => turn := Return(false);
        case Yielded => turn := Again;
        case SendMsg(e) => OnSend(e); turn := Again;
        case NeedsMessage =>
          if incoming != [] {
            turn := HandOver(incoming[0]);
            incoming := incoming[1..];
          } else {
            var payload, weSent := SealBoundary();
            turn := if payload.Some? then Exchange(payload.value, weSent) else Return(false);
          }
      }
    }

    /** The receiving half: open every other party's payload and queue what is
        ours, the broadcast before the direct message, numbered consecutively. */
    method Absorb(all: seq<Packet<M>>, weSent: bool) returns (ok: bool)
      requires |all| == n && me < n
      modifies this`incoming, this`nextId, this`round
      ensures var got := Arrivals(domain, old(round), me, all, 0, old(nextId));
              ok == (got.Some? && (weSent || got.value != [])) &&
              (ok ==> incoming == old(incoming) + got.value && nextId == old(nextId) + |got.value| && round == old(round) + 1)
    {
      hide Open, Queued;
      var received := false;
      ghost var got: seq<Incoming<M>> := [];
      var sender := 0;
      PrependNil(Arrivals(domain, round, me, all, 0, nextId));
      while sender < n
        invariant 0 <= sender <= n && round == old(round)
        invariant incoming == old(incoming) + got && nextId == old(nextId) + |got|
        invariant received == (got != [])
        invariant Arrivals(domain, round, me, all, 0, old(nextId)) == Prepend(got, Arrivals(domain, round, me, all, sender, nextId))
      {
        if sender != me {
          var unsealed := Open(domain, round, sender, me, all[sender]);
          if unsealed.None? { return false; }
          ghost var here := Queued(unsealed.value, sender, nextId);
          PrependTwice(got, here, Arrivals(domain, round, me, all, sender + 1, nextId + |here|));
          var some := Enqueue(unsealed.value, sender);
          received := received || some;
          got := got + here;
        }
        sender := sender + 1;
      }
      PrependNil(Some(got));
      if !weSent && !received { return false; }
      round := round + 1;
      ok := true;
    }

    method Enqueue(o: Opened<M>, sender: nat) returns (received: bool)
      modifies this`incoming, this`nextId
      ensures incoming == old(incoming) + Queued(o, sender, old(nextId))
      ensures nextId == old(nextId) + |Queued(o, sender, old(nextId))|
      ensures received == (Queued(o, sender, old(nextId)) != [])
    {
      received := false;
      if o.broadcast.Some? {
        received := true;
        incoming := incoming + [Incoming(nextId, sender, true, o.broadcast.value)];
        nextId := nextId + 1;
      }
      if o.p2pToMe.Some? {
        received := true;
        incoming := incoming + [Incoming(nextId, sender, false, o.p2pToMe.value)];
        nextId := nextId + 1;
      }
    }
  }

  lemma PrependNil<T>(rest: Option<seq<T>>)
    ensures Prepend([], rest) == rest
    ensures rest.Some? ==> rest.value + [] == rest.value
  {
    if rest.Some? { assert [] + rest.value == rest.value; }
  }

  lemma PrependTwice<T>(a: seq<T>, b: seq<T>, rest: Option<seq<T>>)
    ensures Prepend(a, Prepend(b, rest)) == Prepend(a + b, rest)
  {
    if rest.Some? { assert a + (b + rest.value) == (a + b) + rest.value; }
  }

  /** Of several broadcasts, or several messages to one party, the last sent
      since the boundary is the one buffered. */
  lemma {:induction false} LastEmitSurvives<M>(emits: seq<Emit<M>>, k: nat)
    requires k < |emits|
    ensures emits[k].ToAll? && (forall j :: k < j < |emits| ==> emits[j].ToOne?) ==> BufferAll(emits).broadcast == Some(emits[k].msg)
    ensures emits[k].ToOne? && (forall j :: k < j < |emits| ==> emits[j].ToAll? || emits[j].recipient != emits[k].recipient) ==>
              emits[k].recipient in BufferAll(emits).p2p && BufferAll(emits).p2p[emits[k].recipient] == emits[k].msg
  {
    if k < |emits| - 1 {
      LastEmitSurvives(emits[..|emits| - 1], k);
      assert emits[..|emits| - 1][k] == emits[k];
    }
  }

  /** The buffers are empty exactly when nothing was sent since the boundary. */
  lemma {:induction false} SentIffEmitted<M>(emits: seq<Emit<M>>)
    ensures SentSomething(BufferAll(emits)) <==> emits != []
  {
    if emits != [] {
      var last := emits[|emits| - 1];
      if last.ToOne? { assert last.recipient in BufferAll(emits).p2p.Keys; }
    }
  }

  // ---------------------------------------------- what the buffers can lose

  /** What a party addressed to `me` between two boundaries, in order. */
  function Addressed<M>(emits: seq<Emit<M>>, me: nat): seq<(bool, M)> {
    if emits == [] then []
    else
      var rest := Addressed(emits[..|emits| - 1], me);
      match emits[|emits| - 1]
      case ToAll(m) => rest + [(true, m)]
      case ToOne(j, m) => if j == me then rest + [(false, m)] else rest
  }

  /** What the buffers deliver to `me`. */
  function Delivered<M>(out: Outbox<M>, me: nat): seq<(bool, M)> {
    (if out.broadcast.Some? then [(true, out.broadcast.value)] else []) +
    (if me in out.p2p then [(false, out.p2p[me])] else [])
  }

  function CountKind<M>(s: seq<(bool, M)>, kind: bool): nat {
    if s == [] then 0 else (if s[|s| - 1].0 == kind then 1 else 0) + CountKind(s[..|s| - 1], kind)
  }

  lemma {:induction false} KindsAddUp<M>(s: seq<(bool, M)>)
    ensures CountKind(s, true) + CountKind(s, false) == |s|
  {
    if s != [] { KindsAddUp(s[..|s| - 1]); }
  }

  lemma CountKindAppend<M>(s: seq<(bool, M)>, x: (bool, M), kind: bool)
    ensures CountKind(s + [x], kind) == CountKind(s, kind) + (if x.0 == kind then 1 else 0)
  {
    assert (s + [x])[..|s|] == s;
  }

  /** What the buffers hold, against what was addressed to `me` so far. */
  predicate Faithful<M(==)>(sent: seq<(bool, M)>, out: Outbox<M>, me: nat) {
    && (out.broadcast.Some? <==> CountKind(sent, true) > 0)
    && (me in out.p2p <==> CountKind(sent, false) > 0)
    && (CountKind(sent, true) <= 1 && CountKind(sent, false) <= 1 ==> multiset(sent) == multiset(Delivered(out, me)))
  }

  lemma FaithfulToAll<M>(sent: seq<(bool, M)>, out: Outbox<M>, me: nat, m: M)
    requires Faithful(sent, out, me)
    ensures Faithful(sent + [(true, m)], out.(broadcast := Some(m)), me)
  {
    CountKindAppend(sent, (true, m), true);
    CountKindAppend(sent, (true, m), false);
    if CountKind(sent, true) == 0 {
      assert Delivered(out.(broadcast := Some(m)), me) == [(true, m)] + Delivered(out, me);
    }
  }

  lemma FaithfulToMe<M>(sent: seq<(bool, M)>, out: Outbox<M>, me: nat, m: M)
    requires Faithful(sent, out, me)
    ensures Faithful(sent + [(false, m)], out.(p2p := out.p2p[me := m]), me)
  {
    CountKindAppend(sent, (false, m), true);
    CountKindAppend(sent, (false, m), false);
    if CountKind(sent, false) == 0 {
      assert Delivered(out.(p2p := out.p2p[me := m]), me) == Delivered(out, me) + [(false, m)];
    }
  }

  lemma {:induction false} BuffersAreFaithful<M>(emits: seq<Emit<M>>, me: nat)
    ensures Faithful(Addressed(emits, me), BufferAll(emits), me)
  {
    if emits != [] {
      var front, e := emits[..|emits| - 1], emits[|emits| - 1];
      BuffersAreFaithful(front, me);
      var before, out := Addressed(front, me), BufferAll(front);
      if e.ToAll? { FaithfulToAll(before, out, me, e.msg); }
      else if e.recipient == me { FaithfulToMe(before, out, me, e.msg); }
      else { assert Delivered(Buffer(out, e), me) == Delivered(out, me); }
    }
  }

  /** Everything addressed to a party in a round reaches it exactly once if and
      only if at most one broadcast and at most one direct message were sent. */
  lemma NothingLostIffNoRepeats<M>(emits: seq<Emit<M>>, me: nat)
    ensures multiset(Addressed(emits, me)) == multiset(Delivered(BufferAll(emits), me)) <==>
            CountKind(Addressed(emits, me), true) <= 1 && CountKind(Addressed(emits, me), false) <= 1
  {
    BuffersAreFaithful(emits, me);
    var sent, got := Addressed(emits, me), Delivered(BufferAll(emits), me);
    KindsAddUp(sent);
    if multiset(sent) == multiset(got) {
      assert |multiset(sent)| == |sent| && |multiset(got)| == |got|;
    }
  }
}
