/**
 Deposit discovery: a guardian's candidate page, the client's catch-up paging
 of one peer, the cursor a round may safely advance to, and what that cursor
 guarantees over any number of rounds with faulty guardians.
 */
module Discovery {
  import opened Basics
  import opened Rank

  const MAX_CANDIDATES: nat := 512
  const MAX_CATCHUP_PAGES: nat := 32

  datatype Candidate = Candidate(block: u64, to: nat, value: u64)

  datatype Response = Response(candidates: seq<Candidate>, scannedTo: nat)

  // ---------------------------------------------------------------- guardian

  datatype CandidateLog = CandidateLog(entries: seq<Candidate>, scannedTo: u64)

  predicate Ascending(entries: seq<Candidate>) {
    forall i, j :: 0 <= i < j < |entries| ==> entries[i].block <= entries[j].block
  }

  function Above(entries: seq<Candidate>, since: nat): seq<Candidate> {
    if entries == [] then []
    else (if entries[0].block > since then [entries[0]] else []) + Above(entries[1..], since)
  }

  /** Candidates above `since`, oldest first, and the height this very answer
      is complete for: clamped below the first entry that did not fit. */
  function Since(log: CandidateLog, since: nat, limit: nat): Response {
    var matching := Above(log.entries, since);
    if |matching| <= limit then Response(matching, log.scannedTo)
    else Response(matching[..limit], Min(log.scannedTo, SaturatingSub(matching[limit].block, 1)))
  }

  /** The page contract: the answer holds everything in `(since, scannedTo]`. */
  ghost predicate Covers(resp: Response, since: nat, truth: iset<Candidate>) {
    forall c :: c in truth && since < c.block <= resp.scannedTo ==> c in resp.candidates
  }

  lemma {:induction false} AboveIsAbove(entries: seq<Candidate>, since: nat)
    requires Ascending(entries)
    ensures Ascending(Above(entries, since))
    ensures forall c :: c in Above(entries, since) <==> c in entries && c.block > since
  {
    if entries != [] {
      AboveIsAbove(entries[1..], since);
      assert entries == [entries[0]] + entries[1..];
      var rest := Above(entries[1..], since);
      forall j | 0 <= j < |rest| ensures entries[0].block <= rest[j].block {
        assert rest[j] in entries[1..];
      }
    }
  }

  /** A guardian's answer meets the contract for everything it retains, holds
      nothing else, and claims less than the guardian's own progress only when
      the page is full and the very next block has a retained entry. */
  lemma SinceMeetsContract(log: CandidateLog, since: nat, limit: nat)
    requires Ascending(log.entries)
    ensures var resp := Since(log, since, limit);
            Covers(resp, since, iset c | c in log.entries) && Ascending(resp.candidates) &&
            (forall c :: c in resp.candidates ==> c in log.entries && c.block > since) &&
            |resp.candidates| <= limit && resp.scannedTo <= log.scannedTo &&
            (resp.scannedTo < log.scannedTo ==>
               |resp.candidates| == limit && exists c :: c in log.entries && c.block > since && c.block == resp.scannedTo + 1)
  {
    AboveIsAbove(log.entries, since);
    var matching := Above(log.entries, since);
    var resp := Since(log, since, limit);
    if |matching| > limit { assert matching[limit] in matching; }
    forall c | c in log.entries && since < c.block <= resp.scannedTo ensures c in resp.candidates {
      var i :| 0 <= i < |matching| && matching[i] == c;
      if |matching| > limit && i < limit { assert resp.candidates[i] == c; }
    }
  }

  // ------------------------------------------------------------- one peer

  /** What the `k`-th request of a round to one peer, made at a height, returns. */
  type Peer = (nat, nat) -> Option<Response>

  function PageFrom(peer: Peer, k: nat, at: nat, got: seq<Candidate>, mark: nat): (seq<Candidate>, nat)
    requires k <= MAX_CATCHUP_PAGES
    decreases MAX_CATCHUP_PAGES - k
  {
    if k == MAX_CATCHUP_PAGES then (got, mark)
    else match peer(k, at)
    case None => (got, mark)
    case Some(resp) =>
      if |resp.candidates| != MAX_CANDIDATES || resp.scannedTo <= at then (got + resp.candidates, resp.scannedTo)
      else PageFrom(peer, k + 1, resp.scannedTo, got + resp.candidates, resp.scannedTo)
  }

  function PeerPages(peer: Peer, since: nat): Option<(seq<Candidate>, nat)> {
    if peer(0, since).None? then None else Some(PageFrom(peer, 0, since, [], since))
  }

  method PagePeerCandidates(since: nat, peer: Peer) returns (r: Option<(seq<Candidate>, nat)>, requests: nat)
    ensures r == PeerPages(peer, since)
    ensures 1 <= requests <= MAX_CATCHUP_PAGES
  {
    var at, scannedTo := since, since;
    var candidates: seq<Candidate> := [];
    requests := 0;
    while requests < MAX_CATCHUP_PAGES
      invariant 0 <= requests <= MAX_CATCHUP_PAGES
      invariant requests == 0 ==> at == since && scannedTo == since && candidates == []
      invariant requests > 0 ==> peer(0, since).Some?
      invariant PageFrom(peer, 0, since, [], since) == PageFrom(peer, requests, at, candidates, scannedTo)
    {
      var resp := peer(requests, at);
      requests := requests + 1;
      if resp.None? {
        if requests == 1 { return None, requests; }
        break;
      }
      var fullPage := |resp.value.candidates| == MAX_CANDIDATES;
      var madeProgress := resp.value.scannedTo > at;
      scannedTo := resp.value.scannedTo;
      candidates := candidates + resp.value.candidates;
      if !fullPage || !madeProgress { break; }
      at := scannedTo;
    }
    r := Some((candidates, scannedTo));
  }

  /** A peer that keeps the contract on every request. */
  ghost predicate Honest(peer: Peer, truth: iset<Candidate>) {
    forall k: nat, at: nat :: peer(k, at).Some? ==> Covers(peer(k, at).value, at, truth)
  }

  ghost predicate Served(truth: iset<Candidate>, since: nat, upTo: nat, got: seq<Candidate>) {
    forall c :: c in truth && since < c.block <= upTo ==> c in got
  }

  /** Paging keeps the contract: everything up to the returned mark was served. */
  lemma {:induction false} PagingServes(peer: Peer, truth: iset<Candidate>, since: nat, k: nat, at: nat, got: seq<Candidate>)
    requires Honest(peer, truth) && k <= MAX_CATCHUP_PAGES && Served(truth, since, at, got)
    ensures var r := PageFrom(peer, k, at, got, at); Served(truth, since, r.1, r.0)
    decreases MAX_CATCHUP_PAGES - k
  {
    if k < MAX_CATCHUP_PAGES && peer(k, at).Some? {
      var resp := peer(k, at).value;
      assert Covers(resp, at, truth);
      assert Served(truth, since, resp.scannedTo, got + resp.candidates);
      if |resp.candidates| == MAX_CANDIDATES && resp.scannedTo > at {
        PagingServes(peer, truth, since, k + 1, resp.scannedTo, got + resp.candidates);
      }
    }
  }

  // ------------------------------------------------ catching up with a log

  /** A peer that answers every request from one log, a full page at most. */
  ghost predicate AnswersFrom(peer: Peer, log: CandidateLog) {
    forall k: nat, at: nat :: peer(k, at) == Some(Since(log, at, MAX_CANDIDATES))
  }

  function InBlock(entries: seq<Candidate>, h: nat): nat {
    if entries == [] then 0 else (if entries[0].block == h then 1 else 0) + InBlock(entries[1..], h)
  }

  lemma {:induction false} AboveSplits(entries: seq<Candidate>, low: nat, high: nat)
    requires low <= high
    ensures Above(entries, high) == Above(Above(entries, low), high)
  {
    if entries != [] {
      AboveSplits(entries[1..], low, high);
      var rest := Above(entries[1..], low);
      assert ([entries[0]] + rest)[1..] == rest && [] + rest == rest;
    }
  }

  lemma {:induction false} InBlockOfAbove(entries: seq<Candidate>, since: nat, h: nat)
    ensures InBlock(Above(entries, since), h) <= InBlock(entries, h)
  {
    if entries != [] {
      InBlockOfAbove(entries[1..], since, h);
      var rest := Above(entries[1..], since);
      assert ([entries[0]] + rest)[1..] == rest && [] + rest == rest;
    }
  }

  /** Dropping the blocks before that of entry `k` leaves at most the entries
      from `k` on and the rest of its block. */
  lemma {:induction false} BlockStarts(entries: seq<Candidate>, k: nat, h: nat)
    requires Ascending(entries) && k < |entries| && h >= 1 && entries[k].block == h
    ensures |Above(entries, h - 1)| <= |entries| - k - 1 + InBlock(entries, h)
  {
    if k == 0 {
      AboveAtMost(entries, h - 1);
      assert InBlock(entries, h) >= 1;
    } else {
      BlockStarts(entries[1..], k - 1, h);
      var rest := Above(entries[1..], h - 1);
      assert [] + rest == rest;
    }
  }

  lemma {:induction false} AboveAtMost(entries: seq<Candidate>, since: nat)
    ensures |Above(entries, since)| <= |entries|
  {
    if entries != [] { AboveAtMost(entries[1..], since); }
  }

  /** Against a log that answers through its page rule, paging catches up: when
      no block holds more than `crowd` entries, every request but the last
      leaves at least a page less a crowd fewer entries, so a backlog of at most
      32 times that ends at the log's own progress with all of it served. */
  lemma {:induction false} PagingCatchesUp(peer: Peer, log: CandidateLog, crowd: nat, k: nat, at: nat, got: seq<Candidate>)
    requires AnswersFrom(peer, log) && Ascending(log.entries) && k < MAX_CATCHUP_PAGES && at < log.scannedTo
    requires crowd <= MAX_CANDIDATES && forall h: nat :: InBlock(log.entries, h) <= crowd
    requires |Above(log.entries, at)| <= (MAX_CATCHUP_PAGES - k) * (MAX_CANDIDATES + 1 - crowd)
    ensures var r := PageFrom(peer, k, at, got, at);
            r.1 == log.scannedTo && (forall c :: c in got ==> c in r.0) &&
            forall c :: c in log.entries && at < c.block <= log.scannedTo ==> c in r.0
    decreases MAX_CATCHUP_PAGES - k
  {
    hide Since, Above, Ascending;
    var resp := Since(log, at, MAX_CANDIDATES);
    assert peer(k, at) == Some(resp);
    SinceMeetsContract(log, at, MAX_CANDIDATES);
    var more := got + resp.candidates;
    if resp.scannedTo < log.scannedTo {
      PageLeavesFewer(log, crowd, at);
      var page := MAX_CANDIDATES + 1 - crowd;
      assert (MAX_CATCHUP_PAGES - k) * page - page == (MAX_CATCHUP_PAGES - k - 1) * page;
      PagingCatchesUp(peer, log, crowd, k + 1, resp.scannedTo, more);
    } else {
      AtTheEnd(peer, log, k + 1, more);
    }
  }

  /** Once at the log's own progress, paging stays there. */
  lemma AtTheEnd(peer: Peer, log: CandidateLog, k: nat, got: seq<Candidate>)
    requires AnswersFrom(peer, log) && Ascending(log.entries) && k <= MAX_CATCHUP_PAGES
    ensures var r := PageFrom(peer, k, log.scannedTo, got, log.scannedTo);
            r.1 == log.scannedTo && forall c :: c in got ==> c in r.0
  {
    if k < MAX_CATCHUP_PAGES {
      assert peer(k, log.scannedTo) == Some(Since(log, log.scannedTo, MAX_CANDIDATES));
      hide Since, Above, Ascending;
      SinceMeetsContract(log, log.scannedTo, MAX_CANDIDATES);
    }
  }

  /** Partial progress is kept: paging only adds to what it has, and a failed
      request ends it at the last mark. A peer is passed over exactly when its
      very first request fails. */
  lemma {:induction false} PagingKeepsProgress(peer: Peer, k: nat, at: nat, got: seq<Candidate>, mark: nat)
    requires k <= MAX_CATCHUP_PAGES
    ensures var r := PageFrom(peer, k, at, got, mark);
            got <= r.0 && (k < MAX_CATCHUP_PAGES && peer(k, at).None? ==> r == (got, mark))
    ensures PeerPages(peer, at).None? <==> peer(0, at).None?
    ensures PeerPages(peer, at).Some? ==> PeerPages(peer, at).value == PageFrom(peer, 0, at, [], at)
    decreases MAX_CATCHUP_PAGES - k
  {
    if k < MAX_CATCHUP_PAGES && peer(k, at).Some? {
      var resp := peer(k, at).value;
      if |resp.candidates| == MAX_CANDIDATES && resp.scannedTo > at {
        PagingKeepsProgress(peer, k + 1, resp.scannedTo, got + resp.candidates, resp.scannedTo);
      }
    }
  }

  lemma PageLeavesFewer(log: CandidateLog, crowd: nat, at: nat)
    requires Ascending(log.entries) && crowd <= MAX_CANDIDATES && forall h: nat :: InBlock(log.entries, h) <= crowd
    requires Since(log, at, MAX_CANDIDATES).scannedTo < log.scannedTo
    ensures var mark := Since(log, at, MAX_CANDIDATES).scannedTo;
            mark > at && |Since(log, at, MAX_CANDIDATES).candidates| == MAX_CANDIDATES &&
            1 <= |Above(log.entries, mark)| <= |Above(log.entries, at)| - (MAX_CANDIDATES + 1 - crowd)
  {
    var matching := Above(log.entries, at);
    AboveIsAbove(log.entries, at);
    assert matching[MAX_CANDIDATES] in matching;
    var h := matching[MAX_CANDIDATES].block;
    var mark := h - 1;
    BlockStarts(matching, MAX_CANDIDATES, h);
    InBlockOfAbove(log.entries, at, h);
    if mark == at { AboveAll(matching, at); }
    AboveSplits(log.entries, at, mark);
    AboveIsAbove(log.entries, mark);
    assert matching[MAX_CANDIDATES] in Above(log.entries, mark);
  }

  lemma {:induction false} AboveAll(entries: seq<Candidate>, since: nat)
    requires forall c :: c in entries ==> c.block > since
    ensures Above(entries, since) == entries
  {
    if entries != [] { AboveAll(entries[1..], since); }
  }

  // ---------------------------------------------------------------- a round

  /** The `(f + 1)`-th highest mark: descending index `f` of the sorted marks. */
  function SafeScanCursor(marks: seq<nat>, n: nat): Option<int>
    requires n >= 1
  {
    var sorted := Sort(marks);
    if MaxEvil(n) < |sorted| then Some(sorted[|sorted| - 1 - MaxEvil(n)]) else None
  }

  /** It is the highest height that more than `f` of the marks reach. */
  lemma SafeCursorIsHighest(marks: seq<nat>, n: nat, h: int)
    requires n >= 1
    ensures SafeScanCursor(marks, n).Some? <==> |marks| > MaxEvil(n)
    ensures SafeScanCursor(marks, n).Some? ==>
              (h <= SafeScanCursor(marks, n).value <==> CountSide(marks, h, false) > MaxEvil(n))
  {
    SortKeeps(marks, 0, true);
    if |marks| > MaxEvil(n) {
      var k := |marks| - 1 - MaxEvil(n);
      RankBounds(marks, k);
      RankIsTight(marks, k, h);
      if h <= Sort(marks)[k] { CountGrows(marks, Sort(marks)[k], h); }
    }
  }

  lemma {:induction false} CountGrows(s: seq<int>, high: int, low: int)
    requires low <= high
    ensures CountSide(s, low, false) >= CountSide(s, high, false)
  {
    if s != [] { CountGrows(s[1..], high, low); }
  }

  /** The marks of the peers that answered, in peer order. */
  function Marks(peers: seq<Peer>, since: nat): seq<nat> {
    if peers == [] then []
    else (match PeerPages(peers[0], since) case None => [] case Some(p) => [p.1]) + Marks(peers[1..], since)
  }

  function RoundCursor(peers: seq<Peer>, since: nat): int
    requires peers != []
  {
    match SafeScanCursor(Marks(peers, since), |peers|)
    case None => since
    case Some(c) => Max(c, since)
  }

  /** How many peers answer and reach this height. */
  function Reaching(peers: seq<Peer>, since: nat, h: nat): nat {
    if peers == [] then 0
    else
      var page := PeerPages(peers[0], since);
      (if page.Some? && page.value.1 >= h then 1 else 0) + Reaching(peers[1..], since, h)
  }

  lemma {:induction false} MarksReach(peers: seq<Peer>, since: nat, h: nat)
    ensures CountSide(Marks(peers, since), h, false) == Reaching(peers, since, h)
    ensures |Marks(peers, since)| == Reaching(peers, since, 0)
  {
    hide PeerPages;
    if peers != [] {
      MarksReach(peers[1..], since, h);
      var rest := Marks(peers[1..], since);
      var page := PeerPages(peers[0], since);
      if page.Some? { assert Marks(peers, since)[0] == page.value.1 && Marks(peers, since)[1..] == rest; }
      else { assert Marks(peers, since) == rest; }
    }
  }

  /** The cursor of a round is above `since` exactly as far as more than `f`
      peers reach: one that does not answer holds it back only by lacking. */
  lemma RoundCursorIsHighest(peers: seq<Peer>, since: nat, h: nat)
    requires peers != []
    ensures h <= RoundCursor(peers, since) <==> h <= since || Reaching(peers, since, h) > MaxEvil(|peers|)
  {
    hide Sort, Marks, CountSide, Reaching;
    MarksReach(peers, since, h);
    SafeCursorIsHighest(Marks(peers, since), |peers|, h);
    CountAtMost(Marks(peers, since), h, false);
  }

  /** Whether each answering peer is faulty, in peer order. */
  function FaultyAnswers(peers: seq<Peer>, since: nat, faulty: seq<bool>): seq<bool>
    requires |faulty| == |peers|
  {
    if peers == [] then []
    else (match PeerPages(peers[0], since) case None => [] case Some(_) => [faulty[0]]) + FaultyAnswers(peers[1..], since, faulty[1..])
  }

  lemma {:induction false} FaultyAnswersFew(peers: seq<Peer>, since: nat, faulty: seq<bool>)
    requires |faulty| == |peers|
    ensures |FaultyAnswers(peers, since, faulty)| == |Marks(peers, since)|
    ensures CountFaulty(FaultyAnswers(peers, since, faulty)) <= CountFaulty(faulty)
  {
    hide PeerPages;
    if peers != [] {
      FaultyAnswersFew(peers[1..], since, faulty[1..]);
      var rest := FaultyAnswers(peers[1..], since, faulty[1..]);
      assert ([faulty[0]] + rest)[1..] == rest && [] + rest == rest;
    }
  }

  lemma HeadAnswers(peers: seq<Peer>, since: nat, faulty: seq<bool>)
    requires |faulty| == |peers|
    ensures peers == [] ==> Marks(peers, since) == []
    ensures peers != [] ==>
              var page := PeerPages(peers[0], since);
              Marks(peers, since) == (if page.Some? then [page.value.1] else []) + Marks(peers[1..], since) &&
              FaultyAnswers(peers, since, faulty) ==
                (if page.Some? then [faulty[0]] else []) + FaultyAnswers(peers[1..], since, faulty[1..])
  {
    hide PeerPages;
  }

  lemma {:induction false} MarkAt(peers: seq<Peer>, since: nat, faulty: seq<bool>, i: nat)
    requires |faulty| == |peers| && i < |Marks(peers, since)| == |FaultyAnswers(peers, since, faulty)|
    ensures exists j :: 0 <= j < |peers| && PeerPages(peers[j], since).Some? &&
              PeerPages(peers[j], since).value.1 == Marks(peers, since)[i] && faulty[j] == FaultyAnswers(peers, since, faulty)[i]
  {
    hide PeerPages, Marks, FaultyAnswers;
    HeadAnswers(peers, since, faulty);
    FaultyAnswersFew(peers[1..], since, faulty[1..]);
    var here := if PeerPages(peers[0], since).Some? then 1 else 0;
    if i < here {
      assert PeerPages(peers[0], since).value.1 == Marks(peers, since)[i];
    } else {
      MarkAt(peers[1..], since, faulty[1..], i - here);
      var j :| 0 <= j < |peers| - 1 && PeerPages(peers[1..][j], since).Some? &&
        PeerPages(peers[1..][j], since).value.1 == Marks(peers[1..], since)[i - here] &&
        faulty[1..][j] == FaultyAnswers(peers[1..], since, faulty[1..])[i - here];
      assert peers[j + 1] == peers[1..][j];
    }
  }

  /** The cursor of a round is a height some non-faulty guardian reached and
      served in full, and it never goes down. */
  lemma CursorIsHonestlyServed(peers: seq<Peer>, since: nat, faulty: seq<bool>, truth: iset<Candidate>)
    requires peers != [] && |faulty| == |peers| && CountFaulty(faulty) <= MaxEvil(|peers|)
    requires forall j :: 0 <= j < |peers| && !faulty[j] ==> Honest(peers[j], truth)
    ensures RoundCursor(peers, since) >= since
    ensures RoundCursor(peers, since) > since ==>
              exists j :: 0 <= j < |peers| && !faulty[j] && PeerPages(peers[j], since).Some? &&
                Served(truth, since, RoundCursor(peers, since), PeerPages(peers[j], since).value.0)
  {
    hide Sort, CountSide, CountFaulty, PageFrom, Marks, FaultyAnswers, Honest;
    var cursor := RoundCursor(peers, since);
    var marks, bad := Marks(peers, since), FaultyAnswers(peers, since, faulty);
    if cursor > since {
      var f := MaxEvil(|peers|);
      SortKeeps(marks, 0, true);
      RankBounds(marks, |marks| - 1 - f);
      FaultyAnswersFew(peers, since, faulty);
      HonestOnSide(marks, bad, cursor, false);
      var i :| 0 <= i < |marks| && !bad[i] && OnSide(marks[i], cursor, false);
      MarkAt(peers, since, faulty, i);
      var j :| 0 <= j < |peers| && PeerPages(peers[j], since).Some? && PeerPages(peers[j], since).value.1 == marks[i] &&
        faulty[j] == bad[i];
      PagingServes(peers[j], truth, since, 0, since, []);
    }
  }

  // ------------------------------------------------------------------- rounds

  datatype Round = Round(peers: seq<Peer>, faulty: seq<bool>)

  /** At most `f` of the guardians misreport in a round; the others keep the contract. */
  ghost predicate FaultBound(r: Round, truth: iset<Candidate>) {
    && |r.faulty| == |r.peers| && r.peers != [] && CountFaulty(r.faulty) <= MaxEvil(|r.peers|)
    && forall j :: 0 <= j < |r.peers| && !r.faulty[j] ==> Honest(r.peers[j], truth)
  }

  function CursorAfter(rounds: seq<Round>, since: nat): nat
    requires forall k :: 0 <= k < |rounds| ==> rounds[k].peers != []
    decreases |rounds|
  {
    if rounds == [] then since else CursorAfter(rounds[1..], Max(since, RoundCursor(rounds[0].peers, since)))
  }

  /** One non-faulty guardian's answer holds every candidate of this height. */
  ghost predicate CoversHeight(r: Round, since: nat, truth: iset<Candidate>, h: nat, j: nat)
    requires |r.faulty| == |r.peers|
  {
    j < |r.peers| && !r.faulty[j] && PeerPages(r.peers[j], since).Some? &&
    forall c :: c in truth && c.block == h ==> c in PeerPages(r.peers[j], since).value.0
  }

  /** In some round, asked at the cursor of that round, one such guardian did. */
  ghost predicate HeightServed(rounds: seq<Round>, since: nat, truth: iset<Candidate>, h: nat)
    requires forall k :: 0 <= k < |rounds| ==> rounds[k].peers != [] && |rounds[k].faulty| == |rounds[k].peers|
    decreases |rounds|
  {
    rounds != [] &&
    ((exists j: nat :: CoversHeight(rounds[0], since, truth, h, j)) ||
     HeightServed(rounds[1..], Max(since, RoundCursor(rounds[0].peers, since)), truth, h))
  }

  /** Over any rounds, each with its own answers and its own at most `f` faulty
      guardians, every height above the starting point and at or below the
      cursor was fully served by one non-faulty guardian in one round; the
      cursor never falls. */
  lemma {:induction false} NothingBelowTheCursorIsMissed(rounds: seq<Round>, since: nat, truth: iset<Candidate>, h: nat)
    requires forall k :: 0 <= k < |rounds| ==> rounds[k].peers != [] && |rounds[k].faulty| == |rounds[k].peers|
    requires forall k :: 0 <= k < |rounds| ==> FaultBound(rounds[k], truth)
    ensures CursorAfter(rounds, since) >= since
    ensures since < h <= CursorAfter(rounds, since) ==> HeightServed(rounds, since, truth, h)
    decreases |rounds|
  {
    hide RoundCursor, PeerPages, Honest;
    if rounds != [] {
      var r := rounds[0];
      var next := Max(since, RoundCursor(r.peers, since));
      CursorIsHonestlyServed(r.peers, since, r.faulty, truth);
      NothingBelowTheCursorIsMissed(rounds[1..], next, truth, h);
      if since < h <= next {
        var j :| 0 <= j < |r.peers| && !r.faulty[j] && PeerPages(r.peers[j], since).Some? &&
          Served(truth, since, RoundCursor(r.peers, since), PeerPages(r.peers[j], since).value.0);
        assert CoversHeight(r, since, truth, h, j);
      }
    }
  }

  // ------------------------------------------------------------------- client

  /** Some answering peer handed over this candidate. */
  ghost predicate Reported(peers: seq<Peer>, since: nat, c: Candidate) {
    exists j :: 0 <= j < |peers| && PeerPages(peers[j], since).Some? && c in PeerPages(peers[j], since).value.0
  }

  /** A round asked at `since` reports this candidate to the client. */
  ghost predicate Matches(peers: seq<Peer>, since: nat, claimKeys: set<nat>, c: Candidate) {
    c.to in claimKeys && Reported(peers, since, c)
  }

  ghost predicate MatchedInSomeRound(rounds: seq<Round>, since: nat, claimKeys: set<nat>, c: Candidate)
    requires forall k :: 0 <= k < |rounds| ==> rounds[k].peers != []
    decreases |rounds|
  {
    rounds != [] &&
    (Matches(rounds[0].peers, since, claimKeys, c) ||
     MatchedInSomeRound(rounds[1..], Max(since, RoundCursor(rounds[0].peers, since)), claimKeys, c))
  }

  /** So every transfer to a held account at or below the cursor was reported
      to the client in some round. */
  lemma EveryHeldDepositIsReported(rounds: seq<Round>, since: nat, truth: iset<Candidate>, claimKeys: set<nat>, c: Candidate)
    requires forall k :: 0 <= k < |rounds| ==> rounds[k].peers != [] && |rounds[k].faulty| == |rounds[k].peers|
    requires forall k :: 0 <= k < |rounds| ==> FaultBound(rounds[k], truth)
    requires c in truth && c.to in claimKeys && since < c.block <= CursorAfter(rounds, since)
    ensures MatchedInSomeRound(rounds, since, claimKeys, c)
  {
    NothingBelowTheCursorIsMissed(rounds, since, truth, c.block);
    ServedIsMatched(rounds, since, truth, claimKeys, c);
  }

  lemma {:induction false} ServedIsMatched(rounds: seq<Round>, since: nat, truth: iset<Candidate>, claimKeys: set<nat>, c: Candidate)
    requires forall k :: 0 <= k < |rounds| ==> rounds[k].peers != [] && |rounds[k].faulty| == |rounds[k].peers|
    requires c in truth && c.to in claimKeys && HeightServed(rounds, since, truth, c.block)
    ensures MatchedInSomeRound(rounds, since, claimKeys, c)
    decreases |rounds|
  {
    hide RoundCursor, PeerPages;
    if j: nat :| CoversHeight(rounds[0], since, truth, c.block, j) {
      assert Reported(rounds[0].peers, since, c);
    } else {
      ServedIsMatched(rounds[1..], Max(since, RoundCursor(rounds[0].peers, since)), truth, claimKeys, c);
    }
  }

  class DiscoveryClient {
    var cursor: nat
    const claimKeys: set<nat>

    constructor (claimKeys: set<nat>)
      ensures cursor == 0 && this.claimKeys == claimKeys
    {
      cursor := 0;
      this.claimKeys := claimKeys;
    }

    /** One round: page every peer, advance the cursor, and report every distinct
        candidate that pays one of our accounts. */
    method DiscoverDeposits(peers: seq<Peer>) returns (matches: seq<Candidate>, answering: nat)
      requires peers != []
      modifies this`cursor
      ensures cursor == RoundCursor(peers, old(cursor)) && cursor >= old(cursor)
      ensures answering == |Marks(peers, old(cursor))|
      ensures forall c :: c in matches <==> Matches(peers, old(cursor), claimKeys, c)
      ensures forall i, j :: 0 <= i < j < |matches| ==> matches[i] != matches[j]
    {
      hide PeerPages, SafeScanCursor;
      var since := cursor;
      var scanned, all := PageEveryPeer(peers, since);
      var safe := SafeScanCursor(scanned, |peers|);
      var advanced := Max(if safe.Some? then safe.value else since, since);
      matches := MatchingCandidates(all, claimKeys);
      answering := |scanned|;
      if advanced > since { cursor := advanced; }
    }
  }

  method PageEveryPeer(peers: seq<Peer>, since: nat) returns (scanned: seq<nat>, all: seq<Candidate>)
    ensures scanned == Marks(peers, since)
    ensures forall c :: c in all <==> Reported(peers, since, c)
  {
    hide PeerPages, Reported, Marks;
    NobodyReported(since);
    assert peers[0..] == peers;
    scanned, all := [], [];
    for k := 0 to |peers|
      invariant Marks(peers, since) == scanned + Marks(peers[k..], since)
      invariant forall c :: c in all <==> Reported(peers[..k], since, c)
    {
      var page, _ := PagePeerCandidates(since, peers[k]);
      MarksNext(peers, since, k);
      forall c ensures Reported(peers[..k + 1], since, c) <==> Reported(peers[..k], since, c) || (page.Some? && c in page.value.0) {
        ReportedNext(peers, since, k, c);
      }
      if page.Some? {
        scanned := scanned + [page.value.1];
        all := all + page.value.0;
      }
    }
    assert peers[|peers|..] == [] && peers[..|peers|] == peers;
    NoMarks(since);
  }

  lemma NoMarks(since: nat)
    ensures Marks([], since) == []
  {
  }

  lemma MarksNext(peers: seq<Peer>, since: nat, k: nat)
    requires k < |peers|
    ensures var page := PeerPages(peers[k], since);
            Marks(peers[k..], since) == (if page.Some? then [page.value.1] else []) + Marks(peers[k + 1..], since)
  {
    hide PeerPages;
    assert peers[k..][1..] == peers[k + 1..] && peers[k..][0] == peers[k];
  }

  lemma NobodyReported(since: nat)
    ensures forall c :: !Reported([], since, c)
  {
  }

  lemma ReportedNext(peers: seq<Peer>, since: nat, k: nat, c: Candidate)
    requires k < |peers|
    ensures Reported(peers[..k + 1], since, c) <==>
            Reported(peers[..k], since, c) || (PeerPages(peers[k], since).Some? && c in PeerPages(peers[k], since).value.0)
  {
    hide PeerPages;
    var more, fewer := peers[..k + 1], peers[..k];
    if Reported(fewer, since, c) {
      var j :| 0 <= j < k && PeerPages(fewer[j], since).Some? && c in PeerPages(fewer[j], since).value.0;
      assert more[j] == fewer[j];
    }
    if Reported(more, since, c) {
      var j :| 0 <= j < k + 1 && PeerPages(more[j], since).Some? && c in PeerPages(more[j], since).value.0;
      if j < k { assert fewer[j] == more[j]; }
    }
    if PeerPages(peers[k], since).Some? && c in PeerPages(peers[k], since).value.0 { assert more[k] == peers[k]; }
  }

  /** The distinct candidates that pay one of the given accounts. */
  method MatchingCandidates(all: seq<Candidate>, claimKeys: set<nat>) returns (matches: seq<Candidate>)
    ensures forall c :: c in matches <==> c.to in claimKeys && c in all
    ensures forall i, j :: 0 <= i < j < |matches| ==> matches[i] != matches[j]
  {
    matches := [];
    var seen: set<Candidate> := {};
    for k := 0 to |all|
      invariant forall c :: c in seen <==> c in all[..k]
      invariant forall c :: c in matches <==> c.to in claimKeys && c in seen
      invariant forall i, j :: 0 <= i < j < |matches| ==> matches[i] != matches[j]
    {
      if all[k] !in seen {
        seen := seen + {all[k]};
        if all[k].to in claimKeys { matches := matches + [all[k]]; }
      }
    }
  }
}
