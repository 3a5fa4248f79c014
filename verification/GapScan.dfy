/**
 Seed-only recovery of deposits: probe index after index under two derived
 keys until `gap_limit` consecutive indices are uncredited.
 */
module GapScan {
  import opened Basics

  /** The federation's answer for one derived account. */
  datatype Status = Status(account: nat, credited: u64, claimable: u64)

  /** Both keys of one index, `None` where the request fails. With a zero tweak
      the ground and the legacy key coincide and only the first is probed. */
  datatype Probes = Probes(tweak: nat, ground: Option<Status>, legacy: Option<Status>)

  type Chain = nat -> Probes

  function Requests(chain: Chain, i: nat): seq<Option<Status>> {
    var p := chain(i);
    if p.tweak == 0 then [p.ground] else [p.ground, p.legacy]
  }

  predicate Fails(chain: Chain, i: nat) {
    None in Requests(chain, i)
  }

  /** What is learned before the first failed request. */
  function Answered(requests: seq<Option<Status>>): seq<Status> {
    if requests == [] || requests[0].None? then [] else [requests[0].value] + Answered(requests[1..])
  }

  function StatusesAt(chain: Chain, i: nat): seq<Status> {
    Answered(Requests(chain, i))
  }

  lemma {:induction false} AnsweredAt(requests: seq<Option<Status>>, k: nat)
    requires k <= |requests| && forall j :: 0 <= j < k ==> requests[j].Some?
    ensures k <= |Answered(requests)| && forall j :: 0 <= j < k ==> Answered(requests)[j] == requests[j].value
    ensures k < |requests| && requests[k].Some? ==> k < |Answered(requests)| && Answered(requests)[k] == requests[k].value
    ensures k == |requests| || requests[k].None? ==> |Answered(requests)| == k
  {
    if k > 0 { AnsweredAt(requests[1..], k - 1); }
  }

  predicate Hit(chain: Chain, i: nat) {
    exists s :: s in StatusesAt(chain, i) && s.credited > 0
  }

  datatype Recovered = Recovered(index: nat, status: Status)

  /** No run of `gap` consecutive uncredited indices ends before `i`. */
  ghost predicate WithinGap(chain: Chain, gap: nat, i: nat) {
    forall j: nat :: j + gap <= i ==> HitIn(chain, j, gap)
  }

  ghost predicate HitIn(chain: Chain, from: nat, length: nat) {
    exists k: nat :: from <= k < from + length && Hit(chain, k)
  }

  /** The credited, or the uncredited, of an index's statuses, in probe order. */
  function Select(statuses: seq<Status>, i: nat, credited: bool): seq<Recovered> {
    if statuses == [] then []
    else
      var last := statuses[|statuses| - 1];
      Select(statuses[..|statuses| - 1], i, credited) + (if (last.credited > 0) == credited then [Recovered(i, last)] else [])
  }

  /** Of all indices below `n`, in scan order. */
  function Below(chain: Chain, n: nat, credited: bool): seq<Recovered> {
    if n == 0 then [] else Below(chain, n - 1, credited) + Select(StatusesAt(chain, n - 1), n - 1, credited)
  }

  function Total(found: seq<Recovered>, claimable: bool): nat {
    if found == [] then 0
    else
      var last := found[|found| - 1].status;
      Total(found[..|found| - 1], claimable) + if claimable then last.claimable else last.credited
  }

  function AccountsOf(found: seq<Recovered>): set<nat> {
    set r | r in found :: r.status.account
  }

  lemma {:induction false} InSelect(statuses: seq<Status>, i: nat, credited: bool, r: Recovered)
    ensures r in Select(statuses, i, credited) <==> r.index == i && r.status in statuses && (r.status.credited > 0) == credited
  {
    if statuses != [] {
      InSelect(statuses[..|statuses| - 1], i, credited, r);
      assert statuses == statuses[..|statuses| - 1] + [statuses[|statuses| - 1]];
    }
  }

  lemma {:induction false} InBelow(chain: Chain, n: nat, credited: bool, r: Recovered)
    ensures r in Below(chain, n, credited) <==>
            r.index < n && r.status in StatusesAt(chain, r.index) && (r.status.credited > 0) == credited
  {
    hide Select;
    if n > 0 {
      InBelow(chain, n - 1, credited, r);
      InSelect(StatusesAt(chain, n - 1), n - 1, credited, r);
    }
  }

  /** While the current run of misses is short of the gap, the window that ends
      here holds a hit. */
  lemma WindowHasHit(chain: Chain, gap: nat, index: nat, misses: nat)
    requires misses < gap && misses <= index && (misses < index ==> Hit(chain, index - misses - 1))
    ensures gap <= index ==> HitIn(chain, index - gap, gap)
  {
    hide Hit;
  }

  /** The scan's stop is the first index the gap rule excludes. */
  lemma StopIsExact(chain: Chain, gap: nat, stop: nat)
    requires gap <= stop && forall k: nat :: stop - gap <= k < stop ==> !Hit(chain, k)
    requires forall j: nat :: j + gap < stop ==> HitIn(chain, j, gap)
    ensures forall i: nat :: i < stop <==> WithinGap(chain, gap, i)
  {
    hide Hit;
    forall i: nat ensures i < stop <==> WithinGap(chain, gap, i) {
      if i >= stop {
        var j := stop - gap;
        assert !HitIn(chain, j, gap);
      }
    }
  }

  lemma AccountsPush(found: seq<Recovered>, r: Recovered)
    ensures AccountsOf(found + [r]) == AccountsOf(found) + {r.status.account}
  {
    forall a ensures a in AccountsOf(found + [r]) <==> a in AccountsOf(found) + {r.status.account} {
      if a in AccountsOf(found) {
        var q :| q in found && q.status.account == a;
        assert q in found + [r];
      }
      if a == r.status.account { assert r in found + [r]; }
    }
  }

  lemma TotalPush(found: seq<Recovered>, r: Recovered)
    ensures Total(found + [r], false) == Total(found, false) + r.status.credited
    ensures Total(found + [r], true) == Total(found, true) + r.status.claimable
  {
    assert (found + [r])[..|found|] == found;
  }

  lemma BelowNext(chain: Chain, n: nat, credited: bool)
    ensures Below(chain, n + 1, credited) == Below(chain, n, credited) + Select(StatusesAt(chain, n), n, credited)
  {
  }

  lemma SelectNext(statuses: seq<Status>, k: nat, i: nat, credited: bool)
    requires k < |statuses|
    ensures Select(statuses[..k + 1], i, credited) ==
            Select(statuses[..k], i, credited) + (if (statuses[k].credited > 0) == credited then [Recovered(i, statuses[k])] else [])
  {
    assert statuses[..k + 1][..k] == statuses[..k];
  }

  /** What the scan has gathered; both totals saturate at 64 bits. */
  datatype Summary = Summary(accounts: seq<Recovered>, checked: seq<Recovered>, totalCredited: nat, totalClaimable: nat)

  predicate Totalled(s: Summary) {
    s.totalCredited == Min(Total(s.accounts, false), U64_MAX) && s.totalClaimable == Min(Total(s.accounts, true), U64_MAX)
  }

  function KeysOf(s: Summary): set<nat> {
    AccountsOf(s.accounts) + AccountsOf(s.checked)
  }

  /** Every probe of one index, up to the first that fails: a credited account
      is recovered, an uncredited one kept for later if asked; either way its
      claim key is stored. */
  method ProbeIndex(chain: Chain, i: nat, checkUncredited: bool, before: Summary, keys0: set<nat>, ghost others: set<nat>)
    returns (s: Summary, keys: set<nat>, hit: bool, failed: bool)
    requires Totalled(before) && keys0 == others + KeysOf(before)
    ensures s.accounts == before.accounts + Select(StatusesAt(chain, i), i, true)
    ensures s.checked == if checkUncredited then before.checked + Select(StatusesAt(chain, i), i, false) else before.checked
    ensures Totalled(s) && keys == others + KeysOf(s)
    ensures hit == Hit(chain, i) && failed == Fails(chain, i)
  {
    hide Select, AccountsOf, Total, Answered;
    var requests := Requests(chain, i);
    ghost var probes := StatusesAt(chain, i);
    s, keys, hit, failed := before, keys0, false, false;
    SelectNone(probes, i);
    for k := 0 to |requests|
      invariant forall j :: 0 <= j < k ==> requests[j].Some?
      invariant k <= |probes|
      invariant s.accounts == before.accounts + Select(probes[..k], i, true)
      invariant s.checked == if checkUncredited then before.checked + Select(probes[..k], i, false) else before.checked
      invariant Totalled(s) && keys == others + KeysOf(s)
      invariant hit == exists x :: x in probes[..k] && x.credited > 0
      invariant !failed
    {
      AnsweredAt(requests, k);
      if requests[k].None? {
        assert probes[..k] == probes;
        failed := true;
        return;
      }
      var status := requests[k].value;
      SelectNext(probes, k, i, true);
      SelectNext(probes, k, i, false);
      assert probes[..k + 1] == probes[..k] + [status];
      if status.credited > 0 {
        keys := keys + {status.account};
        AccountsPush(s.accounts, Recovered(i, status));
        TotalPush(s.accounts, Recovered(i, status));
        s := s.(totalCredited := Min(s.totalCredited + status.credited, U64_MAX),
                totalClaimable := Min(s.totalClaimable + status.claimable, U64_MAX),
                accounts := s.accounts + [Recovered(i, status)]);
        hit := true;
      } else if checkUncredited {
        keys := keys + {status.account};
        AccountsPush(s.checked, Recovered(i, status));
        s := s.(checked := s.checked + [Recovered(i, status)]);
      }
    }
    AnsweredAt(requests, |requests|);
    assert probes[..|requests|] == probes;
  }

  lemma SelectNone(statuses: seq<Status>, i: nat)
    ensures forall credited: bool :: Select(statuses[..0], i, credited) == []
  {
  }

  class DepositClient {
    /** Accounts whose claim key the client holds. */
    var claimKeys: set<nat>
    var nextIndex: nat

    constructor ()
      ensures claimKeys == {} && nextIndex == 0
    {
      claimKeys, nextIndex := {}, 0;
    }

    /** With finitely many credited indices the scan ends. It fails exactly when
        a request fails at an index the gap rule admits, keeping the claim keys
        stored so far. Otherwise it stops at the first index the gap rule
        excludes, having recovered exactly the accounts that are credited under
        either key below it. */
    method RecoverDepositsScan(chain: Chain, gap: nat, checkUncredited: bool, ghost bound: nat)
      returns (r: Option<Summary>, ghost stop: nat)
      requires forall i: nat :: i >= bound ==> !Hit(chain, i)
      modifies this
      ensures r.None? <==> exists i: nat :: WithinGap(chain, gap, i) && Fails(chain, i)
      ensures r.None? ==> WithinGap(chain, gap, stop) && Fails(chain, stop) && (forall i: nat :: i < stop ==> !Fails(chain, i)) &&
                          nextIndex == old(nextIndex) &&
                          claimKeys == old(claimKeys) + AccountsOf(Below(chain, stop + 1, true)) +
                                       (if checkUncredited then AccountsOf(Below(chain, stop + 1, false)) else {})
      ensures r.Some? ==> stop <= bound + gap && (forall i: nat :: i < stop <==> WithinGap(chain, gap, i)) &&
                          r.value.accounts == Below(chain, stop, true) &&
                          r.value.checked == (if checkUncredited then Below(chain, stop, false) else []) &&
                          Totalled(r.value) && claimKeys == old(claimKeys) + KeysOf(r.value)
      ensures nextIndex >= old(nextIndex) && (r.Some? ==> forall a :: a in r.value.accounts ==> a.index < nextIndex)
      ensures nextIndex == old(nextIndex) || (r.Some? && exists a :: a in r.value.accounts && nextIndex == a.index + 1)
    {
      hide Hit, Select, HitIn, StatusesAt, Fails, AccountsOf, Total, Below, WithinGap;
      NothingBelowZero(chain);
      var s := Summary([], [], 0, 0);
      var highest: Option<nat> := None;
      var misses, index := 0, 0;
      while misses < gap
        invariant 0 <= misses <= gap && misses <= index <= bound + misses
        invariant forall k: nat :: index - misses <= k < index ==> !Hit(chain, k)
        invariant forall j: nat :: j + gap < index ==> HitIn(chain, j, gap)
        invariant forall i: nat :: i < index ==> !Fails(chain, i)
        invariant highest == if misses == index then None else Some(index - misses - 1)
        invariant misses < index ==> Hit(chain, index - misses - 1)
        invariant s.accounts == Below(chain, index, true)
        invariant s.checked == if checkUncredited then Below(chain, index, false) else []
        invariant Totalled(s) && claimKeys == old(claimKeys) + KeysOf(s)
        invariant nextIndex == old(nextIndex)
        decreases bound + gap - index
      {
        WindowHasHit(chain, gap, index, misses);
        var hit, failed;
        s, claimKeys, hit, failed := ProbeIndex(chain, index, checkUncredited, s, claimKeys, old(claimKeys));
        BelowNext(chain, index, true);
        BelowNext(chain, index, false);
        if failed {
          ReachedIsWithin(chain, gap, index);
          r, stop := None, index;
          return;
        }
        if hit {
          highest := Some(index);
          misses := 0;
        } else {
          misses := misses + 1;
        }
        index := index + 1;
      }
      stop := index;
      StopIsExact(chain, gap, stop);
      r := Some(s);
      if highest.Some? {
        nextIndex := Max(nextIndex, highest.value + 1);
        HitIsRecovered(chain, stop, highest.value);
      }
      forall a | a in s.accounts ensures a.index < nextIndex {
        InBelow(chain, stop, true, a);
        RecoveredIsHit(chain, a);
      }
    }
  }

  lemma ReachedIsWithin(chain: Chain, gap: nat, index: nat)
    requires forall j: nat :: j + gap < index ==> HitIn(chain, j, gap)
    requires gap <= index ==> HitIn(chain, index - gap, gap)
    ensures WithinGap(chain, gap, index)
  {
    hide HitIn;
  }

  lemma NothingBelowZero(chain: Chain)
    ensures forall credited: bool :: Below(chain, 0, credited) == []
    ensures AccountsOf([]) == {} && Total([], false) == 0 && Total([], true) == 0
  {
  }

  lemma HitIsRecovered(chain: Chain, n: nat, i: nat)
    requires Hit(chain, i) && i < n
    ensures exists r :: r in Below(chain, n, true) && r.index == i
  {
    var s :| s in StatusesAt(chain, i) && s.credited > 0;
    InBelow(chain, n, true, Recovered(i, s));
  }

  lemma RecoveredIsHit(chain: Chain, r: Recovered)
    requires r.status in StatusesAt(chain, r.index) && r.status.credited > 0
    ensures Hit(chain, r.index)
  {
  }

  /** What is learned at an index, from its two probes alone: the ground key
      first, and the legacy key only if it differs and the first was answered. */
  lemma ProbedExactly(chain: Chain, i: nat, s: Status)
    ensures s in StatusesAt(chain, i) <==>
            chain(i).ground == Some(s) || (chain(i).tweak != 0 && chain(i).ground.Some? && chain(i).legacy == Some(s))
    ensures Fails(chain, i) <==> chain(i).ground.None? || (chain(i).tweak != 0 && chain(i).legacy.None?)
  {
    var p := chain(i);
    var requests := Requests(chain, i);
    if p.ground.Some? {
      assert requests[0] == p.ground;
      if p.tweak == 0 {
        AnsweredOne(p.ground);
        assert requests == [p.ground];
      } else {
        assert requests[1..] == [p.legacy];
        AnsweredOne(p.legacy);
        assert StatusesAt(chain, i) == [p.ground.value] + (if p.legacy.Some? then [p.legacy.value] else []);
        assert requests[1] == p.legacy;
      }
    } else {
      assert requests[0] == None;
    }
  }

  lemma AnsweredOne(request: Option<Status>)
    ensures Answered([request]) == if request.Some? then [request.value] else []
  {
    assert [request][1..] == [];
  }

  predicate Credits(answer: Option<Status>) {
    answer.Some? && answer.value.credited > 0
  }

  /** An index is used when either of its keys is seen to be credited. */
  lemma HitExactly(chain: Chain, i: nat)
    ensures Hit(chain, i) <==>
            Credits(chain(i).ground) || (chain(i).tweak != 0 && chain(i).ground.Some? && Credits(chain(i).legacy))
  {
    hide StatusesAt;
    forall s ensures s in StatusesAt(chain, i) <==>
                     chain(i).ground == Some(s) || (chain(i).tweak != 0 && chain(i).ground.Some? && chain(i).legacy == Some(s))
    {
      ProbedExactly(chain, i, s);
    }
  }

  /** The accounts the scan recovers, and those it keeps for checking, said
      without the scan: at an index that no full gap precedes, answered under
      the ground key, or under a different legacy key after it, and credited
      or not. */
  lemma RecoveredExactly(chain: Chain, gap: nat, stop: nat, r: Recovered, credited: bool)
    requires forall i: nat :: i < stop <==> WithinGap(chain, gap, i)
    ensures r in Below(chain, stop, credited) <==>
            WithinGap(chain, gap, r.index) && (r.status.credited > 0) == credited &&
            (chain(r.index).ground == Some(r.status) ||
             (chain(r.index).tweak != 0 && chain(r.index).ground.Some? && chain(r.index).legacy == Some(r.status)))
  {
    hide StatusesAt, WithinGap;
    InBelow(chain, stop, credited, r);
    ProbedExactly(chain, r.index, r.status);
  }
}
