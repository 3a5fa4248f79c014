/**
 The mesh as it is built and used: wiring one channel per ordered pair, and
 endpoints that advance one send or one receive at a time.
 */
module MeshNet {
  import opened Basics
  import opened Mesh

  /** Channel identities an endpoint holds, `None` on its own index. */
  datatype Endpoint = Endpoint(index: nat, senders: seq<Option<nat>>, receivers: seq<Option<nat>>)

  /** Allocates a fresh channel per ordered pair and hands out both ends: what
      `i` sends to `j` is exactly what `j` receives from `i`, and no channel is
      shared by two pairs. */
  method InMemoryMesh(n: nat) returns (ends: seq<Endpoint>)
    ensures |ends| == n
    ensures forall i :: 0 <= i < n ==> ends[i].index == i && |ends[i].senders| == n && |ends[i].receivers| == n
    ensures forall i :: 0 <= i < n ==> ends[i].senders[i] == None && ends[i].receivers[i] == None
    ensures forall i, j :: 0 <= i < n && 0 <= j < n && i != j ==>
              ends[i].senders[j].Some? && ends[i].senders[j] == ends[j].receivers[i]
    ensures forall i, j, k, l :: 0 <= i < n && 0 <= j < n && 0 <= k < n && 0 <= l < n && i != j && k != l ==>
              (ends[i].senders[j] == ends[k].senders[l] ==> i == k && j == l)
  {
    var tx: seq<seq<Option<nat>>> := [];
    var unused := 0;
    for i := 0 to n
      invariant |tx| == i
      invariant forall a :: 0 <= a < i ==> |tx[a]| == n && tx[a][a] == None
      invariant forall a, b :: 0 <= a < i && 0 <= b < n && a != b ==> tx[a][b].Some? && tx[a][b].value < unused
      invariant forall a, b, c, d :: 0 <= a < i && 0 <= b < n && 0 <= c < i && 0 <= d < n && a != b && c != d ==>
                  (tx[a][b] == tx[c][d] ==> a == c && b == d)
    {
      var row: seq<Option<nat>> := [];
      ghost var first := unused;
      for j := 0 to n
        invariant |row| == j && first <= unused
        invariant forall b :: 0 <= b < j ==> if b == i then row[b] == None else row[b].Some? && first <= row[b].value < unused
        invariant forall b, d :: 0 <= b < d < j && b != i && d != i ==> row[b] != row[d]
      {
        if j == i { row := row + [None]; }
        else { row := row + [Some(unused)]; unused := unused + 1; }
      }
      tx := tx + [row];
    }
    ends := seq(n, i requires 0 <= i < n => Endpoint(i, tx[i], seq(n, j requires 0 <= j < n => tx[j][i])));
  }

  class InMemoryNet<P(!new)> {
    var parties: seq<Party<P>>
    var chans: map<(nat, nat), seq<P>>

    function View(): Net<P>
      reads this
    {
      Net(parties, chans)
    }

    constructor (n: nat)
      ensures View() == Init(n) && Inv(View())
    {
      parties := seq(n, _ => Party(Idle, [], [], []));
      chans := map i: nat, j: nat | 0 <= i < n && 0 <= j < n :: (i, j) := [];
      new;
      InitInv<P>(n);
      assert View() == Init(n);
    }

    /** A call of `exchange`: the payload is fixed, nothing is on a channel yet. */
    method Begin(i: nat, ours: P)
      requires Inv(View()) && CanStart(View(), i)
      modifies this
      ensures Inv(View()) && View() == Start(old(View()), i, ours)
    {
      ghost var before := View();
      StartInv(before, i, ours);
      var p := parties[i];
      p := p.(sent := p.sent + [ours]);
      p := p.(phase := Sending(0));
      parties := parties[i := p];
    }

    /** One iteration of the send loop or of the receive loop; waits, changing
        nothing, exactly when the next channel to receive from is empty. */
    method Advance(i: nat) returns (moved: bool)
      requires Inv(View()) && i < |parties|
      modifies this
      ensures Inv(View())
      ensures moved == old(CanStep(View(), i))
      ensures old(SlotsReady(View(), i))
      ensures View() == if moved then Step(old(View()), i) else old(View())
    {
      ghost var before := View();
      StepReady(before, i);
      if CanStep(before, i) { StepInv(before, i); }
      var n := |parties|;
      var p := parties[i];
      match p.phase {
        case Idle => return false;
        case Sending(j) =>
          var ours := p.sent[|p.sent| - 1];
          if j < n {
            if j != i { chans := chans[(i, j) := chans[(i, j)] + [ours]]; }
            p := p.(phase := Sending(j + 1));
          } else {
            var slots: seq<Option<P>> := seq(n, _ => None);
            slots := slots[i := Some(ours)];
            p := p.(phase := Receiving(0), slots := slots);
          }
        case Receiving(j) =>
          if j < n && j != i {
            if chans[(j, i)] == [] { return false; }
            var head := chans[(j, i)][0];
            chans := chans[(j, i) := chans[(j, i)][1..]];
            p := p.(slots := p.slots[j := Some(head)], phase := Receiving(j + 1));
          } else if j < n {
            p := p.(phase := Receiving(j + 1));
          } else {
            p := p.(done := p.done + [Unwrap(p.slots)], slots := [], phase := Idle);
          }
      }
      parties := parties[i := p];
      moved := true;
    }
  }
}
