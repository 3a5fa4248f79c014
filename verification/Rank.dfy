/**
 Order statistics under faults: what the element at a given rank of a sorted
 sequence says about the elements of the sequence it was sorted from, and
 which of those must have come from a non-faulty source.
 */
module Rank {
  /** Federation arithmetic: of `n` peers at most `MaxEvil(n)` may be faulty. */
  function MaxEvil(n: nat): (f: nat)
    requires n >= 1
    ensures 3 * f < n <= 3 * f + 3
  {
    (n - 1) / 3
  }

  function Threshold(n: nat): (t: nat)
    requires n >= 1
    ensures 1 <= t <= n && MaxEvil(n) < t
  {
    n - MaxEvil(n)
  }

  function Insert(x: int, s: seq<int>): seq<int> {
    if s == [] || x <= s[0] then [x] + s else [s[0]] + Insert(x, s[1..])
  }

  /** Ascending order. */
  function Sort(s: seq<int>): seq<int> {
    if s == [] then [] else Insert(s[0], Sort(s[1..]))
  }

  predicate Sorted(s: seq<int>) {
    forall i, j :: 0 <= i < j < |s| ==> s[i] <= s[j]
  }

  /** On the chosen side of the pivot, ties included. */
  predicate OnSide(x: int, pivot: int, below: bool) {
    if below then x <= pivot else x >= pivot
  }

  function CountSide(s: seq<int>, pivot: int, below: bool): nat {
    if s == [] then 0 else (if OnSide(s[0], pivot, below) then 1 else 0) + CountSide(s[1..], pivot, below)
  }

  lemma {:induction false} InsertCounts(x: int, s: seq<int>, pivot: int, below: bool)
    ensures CountSide(Insert(x, s), pivot, below) == CountSide([x] + s, pivot, below)
  {
    assert ([x] + s)[1..] == s;
    if s != [] && x > s[0] {
      InsertCounts(x, s[1..], pivot, below);
      var t := Insert(x, s[1..]);
      assert ([s[0]] + t)[1..] == t;
      assert ([x] + s[1..])[1..] == s[1..];
    }
  }

  lemma {:induction false} InsertPermutes(x: int, s: seq<int>)
    ensures |Insert(x, s)| == |s| + 1
    ensures multiset(Insert(x, s)) == multiset(s) + multiset{x}
  {
    if s != [] && x > s[0] {
      InsertPermutes(x, s[1..]);
      assert s == [s[0]] + s[1..];
    }
  }

  lemma {:induction false} InsertOrders(x: int, s: seq<int>)
    requires Sorted(s)
    ensures Sorted(Insert(x, s))
  {
    if s != [] && x > s[0] {
      InsertOrders(x, s[1..]);
      InsertPermutes(x, s[1..]);
      var t := Insert(x, s[1..]);
      forall i | 0 <= i < |t| ensures s[0] <= t[i] {
        assert t[i] in multiset(t);
        if t[i] != x { assert t[i] in s[1..]; }
      }
    }
  }

  /** Sorting permutes and orders, and keeps every side count. */
  lemma {:induction false} SortKeeps(s: seq<int>, pivot: int, below: bool)
    ensures |Sort(s)| == |s| && Sorted(Sort(s))
    ensures multiset(Sort(s)) == multiset(s)
    ensures CountSide(Sort(s), pivot, below) == CountSide(s, pivot, below)
  {
    if s != [] {
      SortKeeps(s[1..], pivot, below);
      InsertPermutes(s[0], Sort(s[1..]));
      InsertOrders(s[0], Sort(s[1..]));
      InsertCounts(s[0], Sort(s[1..]), pivot, below);
      assert s == [s[0]] + s[1..];
      assert ([s[0]] + Sort(s[1..]))[1..] == Sort(s[1..]);
    }
  }

  lemma {:induction false} CountSplit(s: seq<int>, k: nat, pivot: int, below: bool)
    requires k <= |s|
    ensures CountSide(s, pivot, below) == CountSide(s[..k], pivot, below) + CountSide(s[k..], pivot, below)
  {
    if k == 0 {
      assert s[k..] == s;
    } else {
      CountSplit(s[1..], k - 1, pivot, below);
      assert s[1..][..k - 1] == s[..k][1..];
      assert s[1..][k - 1..] == s[k..];
    }
  }

  lemma {:induction false} CountAll(s: seq<int>, pivot: int, below: bool)
    requires forall i :: 0 <= i < |s| ==> OnSide(s[i], pivot, below)
    ensures CountSide(s, pivot, below) == |s|
  {
    if s != [] { CountAll(s[1..], pivot, below); }
  }

  lemma {:induction false} CountNone(s: seq<int>, pivot: int, below: bool)
    requires forall i :: 0 <= i < |s| ==> !OnSide(s[i], pivot, below)
    ensures CountSide(s, pivot, below) == 0
  {
    if s != [] { CountNone(s[1..], pivot, below); }
  }

  lemma {:induction false} CountAtMost(s: seq<int>, pivot: int, below: bool)
    ensures CountSide(s, pivot, below) <= |s|
  {
    if s != [] { CountAtMost(s[1..], pivot, below); }
  }

  /** At ascending rank `k` at least `k + 1` elements lie at or below, and at
      least `|s| - k` at or above. */
  lemma RankBounds(s: seq<int>, k: nat)
    requires k < |s|
    ensures |Sort(s)| == |s|
    ensures Sort(s)[k] in s
    ensures CountSide(s, Sort(s)[k], true) >= k + 1
    ensures CountSide(s, Sort(s)[k], false) >= |s| - k
  {
    hide Sort, CountSide;
    SortKeeps(s, 0, true);
    var t := Sort(s);
    var q := t[k];
    SortKeeps(s, q, true);
    SortKeeps(s, q, false);
    assert q in multiset(t);
    CountSplit(t, k + 1, q, true);
    CountAll(t[..k + 1], q, true);
    CountSplit(t, k, q, false);
    CountAll(t[k..], q, false);
  }

  /** And beyond the element at rank `k` there are fewer. */
  lemma RankIsTight(s: seq<int>, k: nat, pivot: int)
    requires k < |s|
    ensures |Sort(s)| == |s|
    ensures pivot < Sort(s)[k] ==> CountSide(s, pivot, true) <= k
    ensures pivot > Sort(s)[k] ==> CountSide(s, pivot, false) <= |s| - 1 - k
  {
    hide Sort, CountSide;
    SortKeeps(s, pivot, true);
    SortKeeps(s, pivot, false);
    var t := Sort(s);
    if pivot < t[k] {
      CountSplit(t, k, pivot, true);
      CountNone(t[k..], pivot, true);
      CountAtMost(t[..k], pivot, true);
    }
    if pivot > t[k] {
      CountSplit(t, k + 1, pivot, false);
      CountNone(t[..k + 1], pivot, false);
      CountAtMost(t[k + 1..], pivot, false);
    }
  }

  function CountFaulty(faulty: seq<bool>): nat {
    if faulty == [] then 0 else (if faulty[0] then 1 else 0) + CountFaulty(faulty[1..])
  }

  /** More elements on one side than there are faulty sources: an honest one is
      on that side. */
  lemma {:induction false} HonestOnSide(s: seq<int>, faulty: seq<bool>, pivot: int, below: bool)
    requires |s| == |faulty|
    requires CountSide(s, pivot, below) > CountFaulty(faulty)
    ensures exists i :: 0 <= i < |s| && !faulty[i] && OnSide(s[i], pivot, below)
  {
    if !faulty[0] && OnSide(s[0], pivot, below) {
    } else {
      HonestOnSide(s[1..], faulty[1..], pivot, below);
      var i :| 0 <= i < |s| - 1 && !faulty[1..][i] && OnSide(s[1..][i], pivot, below);
      assert !faulty[i + 1] && OnSide(s[i + 1], pivot, below);
    }
  }
}
