/**
 Keyset pagination of the recovery endpoints: one page of an ordered store,
 resumed after the last key returned, and the client loop over pages of a
 store that may change between requests.
 */
module Recovery {
  import opened Basics

  type Bytes = seq<u8>

  const MAX_RECOVERY_PAGE_SIZE: nat := 500
  const MAX_RECOVERY_CURSOR_LEN: nat := 256

  // ------------------------------------------------------------------- order

  /** Byte-lexicographic order; a proper prefix sorts first. */
  predicate Lt(a: Bytes, b: Bytes) {
    if b == [] then false
    else if a == [] then true
    else if a[0] != b[0] then a[0] < b[0]
    else Lt(a[1..], b[1..])
  }

  predicate Le(a: Bytes, b: Bytes) {
    a == b || Lt(a, b)
  }

  lemma {:induction false} LtTotal(a: Bytes, b: Bytes)
    ensures Lt(a, b) || a == b || Lt(b, a)
    ensures !(Lt(a, b) && Lt(b, a)) && !(Lt(a, b) && a == b)
  {
    if a != [] && b != [] && a[0] == b[0] {
      LtTotal(a[1..], b[1..]);
      assert a == [a[0]] + a[1..] && b == [b[0]] + b[1..];
    }
  }

  lemma {:induction false} LtTransitive(a: Bytes, b: Bytes, c: Bytes)
    requires Lt(a, b) && Lt(b, c)
    ensures Lt(a, c)
  {
    if a != [] && a[0] == b[0] && b[0] == c[0] { LtTransitive(a[1..], b[1..], c[1..]); }
  }

  lemma AgainstOneByte(p: u8, k: Bytes)
    ensures Lt([p], k) <==> k != [] && (p < k[0] || (p == k[0] && k[1..] != []))
    ensures Lt(k, [p]) <==> k == [] || k[0] < p
    ensures k == [p] <==> k != [] && k[0] == p && k[1..] == []
  {
    var one: Bytes := [p];
    assert one[0] == p && one[1..] == [];
    if k != [] {
      assert !Lt(k[1..], []);
      assert Lt([], k[1..]) <==> k[1..] != [];
      if k[0] == p && k[1..] == [] { assert k == [k[0]] + k[1..]; }
    }
  }

  /** Appending a zero byte gives the immediate successor: resuming there
      excludes the cursor's own row and nothing else. */
  lemma {:induction false} ZeroSuffixIsSuccessor(x: Bytes, k: Bytes)
    ensures Le(x + [0], k) <==> Lt(x, k)
  {
    if x == [] {
      assert x + [0] == [0];
      AgainstOneByte(0, k);
    } else if k != [] {
      assert (x + [0])[0] == x[0] && (x + [0])[1..] == x[1..] + [0];
      if x[0] == k[0] {
        ZeroSuffixIsSuccessor(x[1..], k[1..]);
        assert k == [k[0]] + k[1..] && x + [0] == [x[0]] + (x[1..] + [0]);
      }
    }
  }

  // ------------------------------------------------------------------- range

  predicate HasPrefix(p: u8, k: Bytes) {
    k != [] && k[0] == p
  }

  predicate InRange(start: Bytes, end: Bytes, k: Bytes) {
    Le(start, k) && Lt(k, end)
  }

  function Clamp(x: Bytes, lo: Bytes, hi: Bytes): Bytes {
    if Lt(x, lo) then lo else if Lt(hi, x) then hi else x
  }

  function RecoveryRange(p: u8, cursor: Option<Bytes>): (Bytes, Bytes)
    requires p < 255
  {
    match cursor
    case None => ([p], [p + 1])
    case Some(last) => (Clamp(last + [0], [p], [p + 1]), [p + 1])
  }

  lemma PrefixBounds(p: u8, k: Bytes)
    requires p < 255
    ensures InRange([p], [p + 1], k) <==> HasPrefix(p, k)
  {
    AgainstOneByte(p, k);
    AgainstOneByte(p + 1, k);
  }

  /** Without a cursor the range selects exactly the rows of this table, and
      whatever bytes a cursor holds exactly those of them that come after it. */
  lemma RangeIsTheRestOfTheTable(p: u8, cursor: Option<Bytes>, k: Bytes)
    requires p < 255
    ensures var (start, end) := RecoveryRange(p, cursor);
            InRange(start, end, k) <==> HasPrefix(p, k) && (cursor.Some? ==> Lt(cursor.value, k))
  {
    hide Lt;
    PrefixBounds(p, k);
    if cursor.Some? {
      var next := cursor.value + [0];
      ZeroSuffixIsSuccessor(cursor.value, k);
      StartAboveLow(p, next);
      var start := RecoveryRange(p, cursor).0;
      if Le(start, k) { LtTransitiveLe([p], start, k); }
      LtTotal(next, [p]);
      LtTotal([p + 1], next);
      LtTotal(k, [p + 1]);
      if Lt(next, [p]) && Le([p], k) { LtTransitiveLe(next, [p], k); }
      if Lt([p + 1], next) && Le(next, k) { LtTransitiveLe([p + 1], next, k); }
    }
  }

  lemma StartAboveLow(p: u8, x: Bytes)
    requires p < 255
    ensures Le([p], Clamp(x, [p], [p + 1]))
  {
    LtTotal(x, [p]);
    LtTotal([p + 1], x);
  }

  lemma LtTransitiveLe(a: Bytes, b: Bytes, c: Bytes)
    requires Le(a, b) && Le(b, c)
    ensures Le(a, c)
  {
    if Lt(a, b) && Lt(b, c) { LtTransitive(a, b, c); }
  }

  // -------------------------------------------------------------------- store

  datatype Row = Row(key: Bytes, value: Bytes)

  /** An ordered key-value store, as its rows in key order. */
  ghost predicate Ordered(rows: seq<Row>) {
    forall i, j :: 0 <= i < j < |rows| ==> Lt(rows[i].key, rows[j].key)
  }

  type Store = s: seq<Row> | Ordered(s) ghost witness []

  /** The rows of a range, in key order. */
  function Scan(rows: seq<Row>, start: Bytes, end: Bytes): seq<Row> {
    if rows == [] then []
    else (if InRange(start, end, rows[0].key) then [rows[0]] else []) + Scan(rows[1..], start, end)
  }

  lemma {:induction false} ScanIsTheRange(rows: seq<Row>, start: Bytes, end: Bytes)
    requires Ordered(rows)
    ensures Ordered(Scan(rows, start, end))
    ensures forall x :: x in Scan(rows, start, end) <==> x in rows && InRange(start, end, x.key)
  {
    hide Lt, InRange;
    if rows != [] {
      ScanIsTheRange(rows[1..], start, end);
      assert rows == [rows[0]] + rows[1..];
      var rest := Scan(rows[1..], start, end);
      forall j | 0 <= j < |rest| ensures Lt(rows[0].key, rest[j].key) {
        assert rest[j] in rest;
        var i :| 0 <= i < |rows[1..]| && rows[1..][i] == rest[j];
        assert rows[i + 1] == rest[j];
      }
    }
  }

  // -------------------------------------------------------------------- pages

  datatype PageError = CursorTooLarge | MalformedCursor | CorruptRow | FetchFailed

  datatype Page = Page(rows: seq<Row>, nextCursor: Option<Bytes>)

  /** Up to `limit` of the remaining rows, and where to resume if more remain. */
  function PageOf(rest: seq<Row>, limit: nat): Page
    requires limit >= 1
  {
    if |rest| > limit then Page(rest[..limit], Some(rest[limit - 1].key)) else Page(rest, None)
  }

  function PageLimit(requested: Option<u32>): (limit: nat)
    ensures 1 <= limit <= MAX_RECOVERY_PAGE_SIZE
    ensures requested.None? ==> limit == MAX_RECOVERY_PAGE_SIZE
    ensures requested.Some? && 1 <= requested.value <= MAX_RECOVERY_PAGE_SIZE ==> limit == requested.value
    ensures requested.Some? && requested.value > MAX_RECOVERY_PAGE_SIZE ==> limit == MAX_RECOVERY_PAGE_SIZE
  {
    match requested
    case None => MAX_RECOVERY_PAGE_SIZE
    case Some(l) => if l < 1 then 1 else if l > MAX_RECOVERY_PAGE_SIZE then MAX_RECOVERY_PAGE_SIZE else l
  }

  /** Which bytes decode as the table's key type and as its value type. */
  datatype Decoders = Decoders(key: Bytes -> bool, value: Bytes -> bool)

  predicate CursorAccepted(cursor: Option<Bytes>, decoders: Decoders) {
    cursor.Some? ==> |cursor.value| <= MAX_RECOVERY_CURSOR_LEN && decoders.key(cursor.value)
  }

  /** Every row of the table decodes, as the module wrote it. */
  ghost predicate WellFormed(store: Store, p: u8, decoders: Decoders) {
    forall x :: x in store && HasPrefix(p, x.key) ==> decoders.key(x.key) && decoders.value(x.value) && |x.key| <= MAX_RECOVERY_CURSOR_LEN
  }

  function Rest(store: Store, p: u8, cursor: Option<Bytes>): seq<Row>
    requires p < 255
  {
    var (start, end) := RecoveryRange(p, cursor);
    Scan(store, start, end)
  }

  lemma {:induction false} ScanPrefix(rows: seq<Row>, i: nat, start: Bytes, end: Bytes)
    requires i <= |rows|
    ensures Scan(rows, start, end) == Scan(rows[..i], start, end) + Scan(rows[i..], start, end)
  {
    if i == 0 {
      assert rows[i..] == rows;
    } else {
      ScanPrefix(rows[1..], i - 1, start, end);
      assert rows[..i][1..] == rows[1..][..i - 1] && rows[i..] == rows[1..][i - 1..];
    }
  }

  /** The first `max` rows of a range, read in key order. */
  method FindByRange(store: Store, start: Bytes, end: Bytes, max: nat) returns (raw: seq<Row>)
    ensures raw <= Scan(store, start, end) && |raw| <= max
    ensures |raw| < max ==> raw == Scan(store, start, end)
  {
    hide InRange;
    raw := [];
    var i := 0;
    while i < |store| && |raw| < max
      invariant 0 <= i <= |store| && |raw| <= max
      invariant raw == Scan(store[..i], start, end)
    {
      ScanOneMore(store, i, start, end);
      if InRange(start, end, store[i].key) { raw := raw + [store[i]]; }
      i := i + 1;
    }
    ScanPrefix(store, i, start, end);
    if i == |store| { assert store[i..] == []; }
  }

  /** Serves one page: validate the cursor, read at most one row past the
      limit, decode every row read, and answer. */
  method RecoveryPage(store: Store, p: u8, cursor: Option<Bytes>, requested: Option<u32>, decoders: Decoders)
    returns (r: Result<Page, PageError>)
    requires p < 255
    ensures r.Ok? ==> CursorAccepted(cursor, decoders) && r.value == PageOf(Rest(store, p, cursor), PageLimit(requested))
    ensures r == Err(CursorTooLarge) <==> cursor.Some? && |cursor.value| > MAX_RECOVERY_CURSOR_LEN
    ensures r == Err(MalformedCursor) <==>
              cursor.Some? && |cursor.value| <= MAX_RECOVERY_CURSOR_LEN && !decoders.key(cursor.value)
    ensures r.Err? && CursorAccepted(cursor, decoders) ==> r.error == CorruptRow && !WellFormed(store, p, decoders)
  {
    hide RecoveryRange, WellFormed, Scan, PageLimit;
    if cursor.Some? && |cursor.value| > MAX_RECOVERY_CURSOR_LEN { return Err(CursorTooLarge); }
    var limit := PageLimit(requested);
    if cursor.Some? && !decoders.key(cursor.value) { return Err(MalformedCursor); }
    var (start, end) := RecoveryRange(p, cursor);
    var raw := FindByRange(store, start, end, limit + 1);
    var rows: seq<Row> := [];
    for k := 0 to |raw|
      invariant rows == raw[..k]
    {
      if !decoders.key(raw[k].key) || !decoders.value(raw[k].value) {
        assert raw[k] == Rest(store, p, cursor)[k];
        RowIsOfTable(store, p, cursor, k, decoders);
        return Err(CorruptRow);
      }
      rows := rows + [raw[k]];
    }
    assert rows == raw;
    var hasMore := |rows| > limit;
    if hasMore { rows := rows[..limit]; }
    r := Ok(Page(rows, if hasMore then Some(rows[|rows| - 1].key) else None));
  }

  lemma RowIsOfTable(store: Store, p: u8, cursor: Option<Bytes>, k: nat, decoders: Decoders)
    requires p < 255 && k < |Rest(store, p, cursor)|
    requires var x := Rest(store, p, cursor)[k]; !decoders.key(x.key) || !decoders.value(x.value)
    ensures !WellFormed(store, p, decoders)
  {
    hide Lt, InRange, RecoveryRange;
    var (start, end) := RecoveryRange(p, cursor);
    var x := Rest(store, p, cursor)[k];
    ScanIsTheRange(store, start, end);
    assert x in Scan(store, start, end);
    RangeIsTheRestOfTheTable(p, cursor, x.key);
  }

  lemma ScanOneMore(rows: seq<Row>, i: nat, start: Bytes, end: Bytes)
    requires i < |rows|
    ensures Scan(rows[..i + 1], start, end) ==
            Scan(rows[..i], start, end) + (if InRange(start, end, rows[i].key) then [rows[i]] else [])
  {
    ScanPrefix(rows[..i + 1], i, start, end);
    assert rows[..i + 1][..i] == rows[..i] && rows[..i + 1][i..] == [rows[i]];
    assert [rows[i]][1..] == [];
  }

  // ------------------------------------------------------------------- client

  ghost predicate Present(store: Store, k: Bytes) {
    exists x :: x in store && x.key == k
  }

  /** Present in the table at every one of the requests made. */
  ghost predicate PresentThroughout(stores: seq<Store>, p: u8, k: Bytes) {
    HasPrefix(p, k) && forall i :: 0 <= i < |stores| ==> Present(stores[i], k)
  }

  ghost predicate Visited(visited: seq<Row>, k: Bytes) {
    exists x :: x in visited && x.key == k
  }

  /** The rows at or before the resume point: nothing beyond it was visited,
      and nothing that was there throughout was missed. */
  ghost predicate CoveredUpTo(visited: seq<Row>, stores: seq<Store>, p: u8, cursor: Option<Bytes>) {
    match cursor
    case None => visited == []
    case Some(c) =>
      && HasPrefix(p, c)
      && (forall x :: x in visited ==> Le(x.key, c))
      && (forall k :: PresentThroughout(stores, p, k) && Le(k, c) ==> Visited(visited, k))
  }

  /** What one page adds. */
  lemma PageExtends(visited: seq<Row>, stores: seq<Store>, now: Store, p: u8, cursor: Option<Bytes>, limit: nat)
    requires p < 255 && limit >= 1 && Ordered(visited) && CoveredUpTo(visited, stores, p, cursor)
    ensures var page := PageOf(Rest(now, p, cursor), limit);
            Ordered(visited + page.rows) &&
            (forall x :: x in page.rows ==> x in now && HasPrefix(p, x.key)) &&
            (page.nextCursor.Some? ==> |page.rows| == limit && CoveredUpTo(visited + page.rows, stores + [now], p, page.nextCursor)) &&
            (page.nextCursor.None? ==> forall k :: PresentThroughout(stores + [now], p, k) ==> Visited(visited + page.rows, k))
  {
    hide Lt, InRange, RecoveryRange;
    var (start, end) := RecoveryRange(p, cursor);
    ScanIsTheRange(now, start, end);
    var rest := Rest(now, p, cursor);
    var page := PageOf(rest, limit);
    forall x | x in rest ensures x in now && HasPrefix(p, x.key) && (cursor.Some? ==> Lt(cursor.value, x.key)) {
      RangeIsTheRestOfTheTable(p, cursor, x.key);
    }
    forall x, y | x in visited && y in page.rows ensures Lt(x.key, y.key) {
      assert y in rest;
      if Lt(x.key, cursor.value) { LtTransitive(x.key, cursor.value, y.key); }
    }
    assert Ordered(visited + page.rows) by { OrderedConcat(visited, page.rows); }
    forall k | PresentThroughout(stores + [now], p, k) && (page.nextCursor.Some? ==> Le(k, page.nextCursor.value))
      ensures Visited(visited + page.rows, k)
    {
      PresentVisited(visited, stores, now, p, cursor, limit, k);
    }
    if page.nextCursor.Some? {
      var c := page.nextCursor.value;
      assert rest[limit - 1] in rest;
      forall x | x in visited + page.rows ensures Le(x.key, c) {
        if x in visited { assert page.rows[limit - 1] in page.rows; }
        else {
          var i :| 0 <= i < limit && page.rows[i] == x;
          if i < limit - 1 { assert Lt(rest[i].key, rest[limit - 1].key); }
        }
      }
    }
  }

  lemma OrderedConcat(a: seq<Row>, b: seq<Row>)
    requires Ordered(a) && Ordered(b) && forall x, y :: x in a && y in b ==> Lt(x.key, y.key)
    ensures Ordered(a + b)
  {
    hide Lt;
    forall i, j | 0 <= i < j < |a + b| ensures Lt((a + b)[i].key, (a + b)[j].key) {
      if i < |a| && j >= |a| { assert a[i] in a && b[j - |a|] in b; }
    }
  }

  lemma PresentVisited(visited: seq<Row>, stores: seq<Store>, now: Store, p: u8, cursor: Option<Bytes>, limit: nat, k: Bytes)
    requires p < 255 && limit >= 1 && CoveredUpTo(visited, stores, p, cursor)
    requires PresentThroughout(stores + [now], p, k)
    requires var page := PageOf(Rest(now, p, cursor), limit); page.nextCursor.Some? ==> Le(k, page.nextCursor.value)
    ensures Visited(visited + PageOf(Rest(now, p, cursor), limit).rows, k)
  {
    hide Lt, InRange, RecoveryRange;
    var page := PageOf(Rest(now, p, cursor), limit);
    assert PresentThroughout(stores, p, k) by {
      forall i | 0 <= i < |stores| ensures Present(stores[i], k) { assert (stores + [now])[i] == stores[i]; }
    }
    if cursor.Some? && Le(k, cursor.value) {
      var x :| x in visited && x.key == k;
      assert x in visited + page.rows;
    } else {
      assert (stores + [now])[|stores|] == now;
      var x :| x in now && x.key == k;
      var (start, end) := RecoveryRange(p, cursor);
      ScanIsTheRange(now, start, end);
      RangeIsTheRestOfTheTable(p, cursor, k);
      if cursor.Some? { LtTotal(k, cursor.value); }
      var rest := Rest(now, p, cursor);
      var i :| 0 <= i < |rest| && rest[i] == x;
      if |rest| > limit && i >= limit {
        assert Lt(rest[limit - 1].key, rest[i].key);
        LtTotal(k, rest[limit - 1].key);
      }
      assert page.rows[i] == x;
    }
  }

  /** The client loop. `stores[k]` is the database as the `k`-th request finds
      it; running out of them is a failed request. */
  method ForEachRecoveryEntry(stores: seq<Store>, p: u8, decoders: Decoders)
    returns (r: Result<(), PageError>, visited: seq<Row>, fetched: nat)
    requires p < 255
    ensures fetched <= |stores|
    ensures Ordered(visited)
    ensures forall x :: x in visited ==> HasPrefix(p, x.key) && exists i :: 0 <= i < fetched && x in stores[i]
    ensures r.Ok? ==> forall k :: PresentThroughout(stores[..fetched], p, k) ==> Visited(visited, k)
    ensures (forall i :: 0 <= i < |stores| ==> WellFormed(stores[i], p, decoders)) && r.Err? ==>
              fetched == |stores| && |visited| == MAX_RECOVERY_PAGE_SIZE * |stores|
  {
    hide Lt, Rest, PageOf, CoveredUpTo, WellFormed, Present, HasPrefix;
    visited, fetched := [], 0;
    var cursor: Option<Bytes> := None;
    StartCovered(p);
    while true
      invariant 0 <= fetched <= |stores| && Ordered(visited)
      invariant CoveredUpTo(visited, stores[..fetched], p, cursor)
      invariant forall x :: x in visited ==> HasPrefix(p, x.key) && exists i :: 0 <= i < fetched && x in stores[i]
      invariant (forall i :: 0 <= i < |stores| ==> WellFormed(stores[i], p, decoders)) ==>
                  CursorAccepted(cursor, decoders) && |visited| == MAX_RECOVERY_PAGE_SIZE * fetched
      decreases |stores| - fetched
    {
      if fetched == |stores| { r := Err(FetchFailed); return; }
      var now := stores[fetched];
      var got := RecoveryPage(now, p, cursor, None, decoders);
      if got.Err? { r := Err(got.error); return; }
      var page := got.value;
      PageExtends(visited, stores[..fetched], now, p, cursor, MAX_RECOVERY_PAGE_SIZE);
      assert stores[..fetched] + [now] == stores[..fetched + 1];
      if WellFormed(now, p, decoders) { NextCursorAccepted(now, p, cursor, decoders); }
      ghost var before := visited;
      visited := visited + page.rows;
      fetched := fetched + 1;
      forall x | x in visited ensures HasPrefix(p, x.key) && exists i :: 0 <= i < fetched && x in stores[i] {
        if x in before { var i :| 0 <= i < fetched - 1 && x in stores[i]; }
        else { assert x in stores[fetched - 1]; }
      }
      match page.nextCursor {
        case Some(next) => cursor := Some(next);
        case None => r := Ok(()); return;
      }
    }
  }

  lemma StartCovered(p: u8)
    ensures CoveredUpTo([], [], p, None)
  {
  }

  lemma NextCursorAccepted(now: Store, p: u8, cursor: Option<Bytes>, decoders: Decoders)
    requires p < 255 && WellFormed(now, p, decoders)
    ensures CursorAccepted(PageOf(Rest(now, p, cursor), MAX_RECOVERY_PAGE_SIZE).nextCursor, decoders)
  {
    hide Lt, InRange, RecoveryRange;
    var rest := Rest(now, p, cursor);
    if |rest| > MAX_RECOVERY_PAGE_SIZE {
      var (start, end) := RecoveryRange(p, cursor);
      ScanIsTheRange(now, start, end);
      var x := rest[MAX_RECOVERY_PAGE_SIZE - 1];
      assert x in rest;
      RangeIsTheRestOfTheTable(p, cursor, x.key);
    }
  }

  lemma {:induction false} OrderedSubset(a: seq<Row>, b: seq<Row>)
    requires Ordered(a) && Ordered(b) && forall x :: x in a ==> x in b
    ensures |a| <= |b|
    ensures |a| == |b| ==> a == b
  {
    hide Lt;
    if a != [] {
      assert a[0] in a;
      var j :| 0 <= j < |b| && b[j] == a[0];
      forall x | x in a[1..] ensures x in b[j + 1..] {
        var i :| 0 <= i < |a| - 1 && a[1..][i] == x;
        assert a[i + 1] == x && x in b;
        var l :| 0 <= l < |b| && b[l] == x;
        assert Lt(a[0].key, a[i + 1].key);
        LtTotal(a[0].key, x.key);
        assert b[j + 1..][l - j - 1] == x;
      }
      OrderedSubset(a[1..], b[j + 1..]);
      if |a| == |b| { assert a == [a[0]] + a[1..] && b[..1] == [b[0]] && b == [b[0]] + b[1..]; }
    }
  }

  /** On a table that does not change, the loop ends within one request more
      than there are full pages and returns exactly the table, in key order. */
  method RecoverStaticTable(store: Store, p: u8, decoders: Decoders, requests: nat) returns (visited: seq<Row>)
    requires p < 255 && WellFormed(store, p, decoders) && MAX_RECOVERY_PAGE_SIZE * requests > |store|
    ensures visited == Rest(store, p, None)
    ensures forall x :: x in visited <==> x in store && HasPrefix(p, x.key)
  {
    var stores := seq(requests, _ => store);
    var r, got, fetched := ForEachRecoveryEntry(stores, p, decoders);
    visited := got;
    hide Lt, InRange, RecoveryRange, WellFormed;
    OrderedSubset(visited, store);
    var (start, end) := RecoveryRange(p, None);
    ScanIsTheRange(store, start, end);
    var table := Rest(store, p, None);
    forall x ensures x in table <==> x in store && HasPrefix(p, x.key) { RangeIsTheRestOfTheTable(p, None, x.key); }
    assert r.Ok?;
    forall x | x in table ensures x in visited {
      assert PresentThroughout(stores[..fetched], p, x.key) by {
        forall i | 0 <= i < fetched ensures Present(stores[..fetched][i], x.key) { assert x in stores[..fetched][i]; }
      }
      var y :| y in visited && y.key == x.key;
      SameKeySameRow(store, x, y);
    }
    OrderedSubset(visited, table);
    OrderedSubset(table, visited);
  }

  lemma SameKeySameRow(store: Store, x: Row, y: Row)
    requires x in store && y in store && x.key == y.key
    ensures x == y
  {
    hide Lt;
    var i :| 0 <= i < |store| && store[i] == x;
    var j :| 0 <= j < |store| && store[j] == y;
    LtTotal(x.key, y.key);
  }
}
