/**
 The round codec: how a box's key material is framed, and sealing and opening
 of a round's packet with the authenticated encryption taken as ideal: a box
 opens exactly under the framing it was sealed with.
 */
module Codec {
  import opened Basics

  type Bytes = seq<u8>

  // ---------------------------------------------------------------- framing

  /** The low `width` bytes of `v`, most significant first. */
  function ToBeBytes(v: nat, width: nat): (r: Bytes)
    ensures |r| == width
  {
    if width == 0 then [] else ToBeBytes(v / 256, width - 1) + [v % 256]
  }

  function FromBeBytes(b: Bytes): nat {
    if b == [] then 0 else 256 * FromBeBytes(b[..|b| - 1]) + b[|b| - 1]
  }

  function Pow256(k: nat): nat {
    if k == 0 then 1 else 256 * Pow256(k - 1)
  }

  lemma {:induction false} BeRoundTrip(v: nat, width: nat)
    requires v < Pow256(width)
    ensures FromBeBytes(ToBeBytes(v, width)) == v
  {
    if width > 0 {
      BeRoundTrip(v / 256, width - 1);
      var b := ToBeBytes(v, width);
      assert b[..|b| - 1] == ToBeBytes(v / 256, width - 1);
    }
  }

  /** The `info` input of the key derivation: length-prefixed domain, then the
      fixed-width round, sender and recipient. */
  function InfoOf(domain: Bytes, round: nat, sender: nat, recipient: nat): Bytes {
    ToBeBytes(|domain|, 4) + domain + ToBeBytes(round, 8) + ToBeBytes(sender, 2) + ToBeBytes(recipient, 2)
  }

  /** The buffer is grown field by field; an over-long domain is refused. */
  method BuildInfo(domain: Bytes, round: u64, sender: u16, recipient: u16) returns (r: Option<Bytes>)
    ensures r == if |domain| >= 0x1_0000_0000 then None else Some(InfoOf(domain, round, sender, recipient))
  {
    if |domain| >= 0x1_0000_0000 { return None; }
    var info: Bytes := [];
    info := info + ToBeBytes(|domain|, 4);
    assert info == ToBeBytes(|domain|, 4);
    info := info + domain;
    info := info + ToBeBytes(round, 8);
    info := info + ToBeBytes(sender, 2);
    info := info + ToBeBytes(recipient, 2);
    r := Some(info);
  }

  lemma Widths()
    ensures Pow256(2) == 0x1_0000 && Pow256(4) == 0x1_0000_0000 && Pow256(8) == 0x1_0000_0000_0000_0000
  {
    assert Pow256(1) == 256 && Pow256(3) == 0x100_0000;
    assert Pow256(6) == 0x1_0000_0000_0000 && Pow256(7) == 0x100_0000_0000_0000 by { assert Pow256(5) == 0x100_0000_0000; }
  }

  /** Where each field stands in the framing, and that it reads back. */
  lemma InfoReads(d: Bytes, r: u64, s: u16, t: u16)
    requires |d| < 0x1_0000_0000
    ensures var x, k := InfoOf(d, r, s, t), 4 + |d|;
            |x| == k + 12 && FromBeBytes(x[..4]) == |d| && x[4..k] == d &&
            FromBeBytes(x[k..k + 8]) == r && FromBeBytes(x[k + 8..k + 10]) == s && FromBeBytes(x[k + 10..]) == t
  {
    hide FromBeBytes, ToBeBytes;
    Widths();
    var x, k := InfoOf(d, r, s, t), 4 + |d|;
    assert x[..4] == ToBeBytes(|d|, 4) && x[4..k] == d;
    assert x[k..k + 8] == ToBeBytes(r, 8) && x[k + 8..k + 10] == ToBeBytes(s, 2) && x[k + 10..] == ToBeBytes(t, 2);
    BeRoundTrip(|d|, 4); BeRoundTrip(r, 8); BeRoundTrip(s, 2); BeRoundTrip(t, 2);
  }

  /** The framing is unambiguous: equal `info` means equal domain, round,
      sender and recipient. */
  lemma InfoIsInjective(d: Bytes, r: u64, s: u16, t: u16, d': Bytes, r': u64, s': u16, t': u16)
    requires |d| < 0x1_0000_0000 && |d'| < 0x1_0000_0000
    requires InfoOf(d, r, s, t) == InfoOf(d', r', s', t')
    ensures d == d' && r == r' && s == s' && t == t'
  {
    hide InfoOf, FromBeBytes;
    InfoReads(d, r, s, t);
    InfoReads(d', r', s', t');
  }

  // ------------------------------------------------------------------ boxes

  datatype Box<M> = Box(info: Bytes, msg: M)

  function OpenBox<M>(b: Box<M>, info: Bytes): Option<M> {
    if b.info == info then Some(b.msg) else None
  }

  /** A box opens for exactly the run, round, sender and recipient it was
      sealed for, so it can neither be replayed nor re-attributed. */
  lemma BoxIsBound<M>(m: M, d: Bytes, r: u64, s: u16, t: u16, d': Bytes, r': u64, s': u16, t': u16)
    requires |d| < 0x1_0000_0000 && |d'| < 0x1_0000_0000
    ensures OpenBox(Box(InfoOf(d, r, s, t), m), InfoOf(d', r', s', t')) ==
            if (d, r, s, t) == (d', r', s', t') then Some(m) else None
  {
    if InfoOf(d, r, s, t) == InfoOf(d', r', s', t') { InfoIsInjective(d, r, s, t, d', r', s', t'); }
  }

  /** What a party sends in one round: at most one broadcast, and at most one
      message per recipient. */
  datatype Outbox<M> = Outbox(broadcast: Option<M>, p2p: map<nat, M>)

  datatype Packet<M> = Packet(broadcast: Option<M>, p2p: map<nat, Box<M>>)

  datatype Opened<M> = Opened(broadcast: Option<M>, p2pToMe: Option<M>)

  function Seal<M>(domain: Bytes, round: nat, me: nat, out: Outbox<M>): Packet<M> {
    Packet(out.broadcast, map t | t in out.p2p :: Box(InfoOf(domain, round, me, t), out.p2p[t]))
  }

  function Open<M>(domain: Bytes, round: nat, sender: nat, me: nat, packet: Packet<M>): Option<Opened<M>> {
    if me !in packet.p2p then Some(Opened(packet.broadcast, None))
    else match OpenBox(packet.p2p[me], InfoOf(domain, round, sender, me))
    case None => None
    case Some(m) => Some(Opened(packet.broadcast, Some(m)))
  }

  /** A packet whose box for us was sealed for another domain, round, sender or
      recipient does not open at all, rather than opening without it. */
  lemma ForeignBoxFailsTheRound<M>(packet: Packet<M>, m: M, d: Bytes, r: u64, s: u16, me: u16, d': Bytes, r': u64, s': u16, t': u16)
    requires |d| < 0x1_0000_0000 && |d'| < 0x1_0000_0000 && (d, r, s, me) != (d', r', s', t')
    requires me in packet.p2p && packet.p2p[me] == Box(InfoOf(d', r', s', t'), m)
    ensures Open(d, r, s, me, packet) == None
  {
    BoxIsBound(m, d', r', s', t', d, r, s, me);
  }

  /** One box per recipient, refusing recipients without a registered key. */
  method SealRound<M>(domain: Bytes, numKeys: nat, round: u64, me: u16, out: Outbox<M>) returns (r: Option<Packet<M>>)
    requires numKeys <= 0x1_0000
    ensures r == if forall t :: t in out.p2p ==> t < numKeys && |domain| < 0x1_0000_0000
                 then Some(Seal(domain, round, me, out)) else None
  {
    var boxes: map<nat, Box<M>> := map[];
    var left := out.p2p.Keys;
    while left != {}
      invariant left <= out.p2p.Keys
      invariant boxes == map t | t in out.p2p && t !in left :: Box(InfoOf(domain, round, me, t), out.p2p[t])
      invariant forall t :: t in out.p2p && t !in left ==> t < numKeys && |domain| < 0x1_0000_0000
      decreases left
    {
      var t :| t in left;
      if t >= numKeys { return None; }
      var info := BuildInfo(domain, round, me, t);
      if info.None? { return None; }
      boxes := boxes[t := Box(info.value, out.p2p[t])];
      left := left - {t};
    }
    assert boxes == Seal(domain, round, me, out).p2p;
    r := Some(Packet(out.broadcast, boxes));
  }

  /** What is opened as coming from `sender` in `round` is what was sealed for us. */
  lemma OpenUndoesSeal<M>(domain: Bytes, round: nat, sender: nat, me: nat, out: Outbox<M>)
    ensures Open(domain, round, sender, me, Seal(domain, round, sender, out)) ==
            Some(Opened(out.broadcast, if me in out.p2p then Some(out.p2p[me]) else None))
  {
  }
}
