/**
 The watch protocol: an OFFSET-paged snapshot of the cache, then a tail of the event log
 read by a keyset cursor.  The queries are read one at a time, and any number of store
 transactions may commit between two of them.
 */
module Watch {
  import opened Wrappers
  import opened Ordering
  import opened ResourceStore

  const PAGE_SIZE: nat := 50

  /** A resource as it is put on the stream. */
  datatype Row = Row(id: Uuid, version: int, content: Content)

  datatype Response = Page(updated: seq<Row>, dropped: seq<Row>) | EndOfList

  // ----- queries -----

  function KeysAbove(t: Tables, namespace: string, cursor: Key): set<Key> {
    set k | k in KeysOf(t, namespace) && KeyLess(cursor, k)
  }

  /** All events above the cursor, in key order. */
  ghost function Above(t: Tables, namespace: string, cursor: Key): (ks: seq<Key>)
    ensures Increasing(KeyLess, ks) && Elements(ks) == KeysAbove(t, namespace, cursor)
    ensures forall k :: k in ks <==> Logged(t, namespace, k) && KeyLess(cursor, k)
    ensures |ks| == |KeysAbove(t, namespace, cursor)|
  {
    KeyOrder();
    KeysOfLogged(t, namespace);
    var ks := Ascending(KeyLess, KeysAbove(t, namespace, cursor));
    assert forall k :: k in ks <==> k in Elements(ks);
    ks
  }

  function Take<T>(s: seq<T>, n: nat): seq<T> {
    if |s| <= n then s else s[..n]
  }

  /** The keyset query: the first page of events above the cursor. */
  ghost function NextEvents(t: Tables, namespace: string, cursor: Key): seq<Key> {
    Take(Above(t, namespace, cursor), PAGE_SIZE)
  }

  /** The greatest event key of the namespace. */
  ghost function MaxKey(t: Tables, namespace: string): Option<Key> {
    var ks := LogOf(t, namespace);
    if ks == [] then None else Some(ks[|ks| - 1])
  }

  /** An answer to the cache listing, ordered by version only: rows of one version come in any order. */
  ghost predicate IsListing(cache: map<Uuid, CacheRow>, listing: seq<Uuid>) {
    && Elements(listing) == cache.Keys
    && (forall i, j :: 0 <= i < j < |listing| ==> listing[i] != listing[j])
    && (forall i, j :: 0 <= i < j < |listing| && listing[i] in cache && listing[j] in cache ==>
          cache[listing[i]].version <= cache[listing[j]].version)
  }

  /** OFFSET and LIMIT. */
  function Slice<T>(s: seq<T>, offset: nat): seq<T> {
    if offset >= |s| then [] else Take(s[offset..], PAGE_SIZE)
  }

  predicate AllCached(cache: map<Uuid, CacheRow>, ids: seq<Uuid>) {
    forall id :: id in ids ==> id in cache
  }

  function CacheRows(cache: map<Uuid, CacheRow>, ids: seq<Uuid>): (rows: seq<Row>)
    requires AllCached(cache, ids)
    ensures |rows| == |ids|
  {
    seq(|ids|, i requires 0 <= i < |ids| => Row(ids[i], cache[ids[i]].version, cache[ids[i]].content))
  }

  predicate AllLogged(t: Tables, namespace: string, ks: seq<Key>) {
    forall k :: k in ks ==> Logged(t, namespace, k)
  }

  function EventOf(t: Tables, namespace: string, k: Key): EventRow
    requires Logged(t, namespace, k)
  {
    t.events[EventKey(namespace, k.version, k.id)]
  }

  /** The rows of the events at `ks` with the given status, in order. */
  function RowsWith(t: Tables, namespace: string, ks: seq<Key>, status: Status): seq<Row>
    requires AllLogged(t, namespace, ks)
  {
    if ks == [] then []
    else
      var k := ks[|ks| - 1];
      RowsWith(t, namespace, ks[..|ks| - 1], status) +
      if EventOf(t, namespace, k).status == status then [Row(k.id, k.version, EventOf(t, namespace, k).content)] else []
  }

  /** One page of events as a response: updates and drops in separate lists. */
  function PageOf(t: Tables, namespace: string, ks: seq<Key>): Response
    requires AllLogged(t, namespace, ks)
  {
    Page(RowsWith(t, namespace, ks, Active), RowsWith(t, namespace, ks, Dropped))
  }

  /** Reading `n` events past the cursor leaves the rest of the events above it. */
  lemma AboveSplit(t: Tables, namespace: string, cursor: Key, n: nat)
    requires 0 < n <= |Above(t, namespace, cursor)|
    ensures Above(t, namespace, Above(t, namespace, cursor)[n - 1]) == Above(t, namespace, cursor)[n..]
  {
    KeyOrder();
    var ks := Above(t, namespace, cursor);
    assert ks[n - 1] in ks;
    Behind(KeyLess, ks, n, Above(t, namespace, ks[n - 1]));
  }

  /** The database's answer to the keyset query. */
  method FetchEvents(t: Tables, namespace: string, cursor: Key) returns (rows: seq<Key>)
    ensures rows == NextEvents(t, namespace, cursor)
  {
    KeyOrder();
    var ks := Sort(KeyLess, KeysAbove(t, namespace, cursor));
    SortIsAscending(KeyLess, KeysAbove(t, namespace, cursor), ks);
    rows := Take(ks, PAGE_SIZE);
  }

  // ----- the poll loop against a log that does not change -----

  function Concat<T>(pages: seq<seq<T>>): seq<T> {
    if pages == [] then [] else Concat(pages[..|pages| - 1]) + pages[|pages| - 1]
  }

  /** Pages of logged events, each with a row and none too long. */
  ghost predicate EventPages(t: Tables, namespace: string, pages: seq<seq<Key>>) {
    forall i :: 0 <= i < |pages| ==> 0 < |pages[i]| <= PAGE_SIZE && AllLogged(t, namespace, pages[i])
  }

  ghost function Responses(t: Tables, namespace: string, pages: seq<seq<Key>>): seq<Response>
    requires EventPages(t, namespace, pages)
  {
    seq(|pages|, i requires 0 <= i < |pages| => PageOf(t, namespace, pages[i]))
  }

  /** Splits the rows of one query into a response and advances the cursor over them. */
  method BuildPage(t: Tables, namespace: string, rows: seq<Key>, cursor: Key) returns (res: Response, next: Key)
    requires AllLogged(t, namespace, rows)
    ensures res == PageOf(t, namespace, rows)
    ensures next == if rows == [] then cursor else rows[|rows| - 1]
  {
    var updated, dropped := [], [];
    next := cursor;
    for i := 0 to |rows|
      invariant updated == RowsWith(t, namespace, rows[..i], Active)
      invariant dropped == RowsWith(t, namespace, rows[..i], Dropped)
      invariant next == if i == 0 then cursor else rows[i - 1]
    {
      assert rows[..i + 1][..i] == rows[..i];
      var k := rows[i];
      assert k in rows;
      var e := EventOf(t, namespace, k);
      if e.status == Active {
        updated := updated + [Row(k.id, k.version, e.content)];
      } else {
        dropped := dropped + [Row(k.id, k.version, e.content)];
      }
      next := k;
    }
    assert rows[..|rows|] == rows;
    res := Page(updated, dropped);
  }

  /** One query of the loop: the page it adds and what is left above the new cursor. */
  lemma PollStep(t: Tables, namespace: string, cursor: Key, pages: seq<seq<Key>>, rows: seq<Key>)
    requires EventPages(t, namespace, pages)
    requires rows == NextEvents(t, namespace, cursor) && rows != []
    ensures AllLogged(t, namespace, rows)
    ensures EventPages(t, namespace, pages + [rows])
    ensures Responses(t, namespace, pages + [rows]) == Responses(t, namespace, pages) + [PageOf(t, namespace, rows)]
    ensures Concat(pages + [rows]) + Above(t, namespace, rows[|rows| - 1]) ==
            Concat(pages) + Above(t, namespace, cursor)
    ensures |Above(t, namespace, rows[|rows| - 1])| == |Above(t, namespace, cursor)| - |rows|
  {
    hide Above, PageOf, KeysAbove, Increasing, Elements, Logged;
    var ks := Above(t, namespace, cursor);
    assert rows == ks[..|rows|];
    assert forall k :: k in rows ==> k in ks;
    assert (pages + [rows])[..|pages|] == pages;
    AboveSplit(t, namespace, cursor, |rows|);
    assert ks == rows + ks[|rows|..];
    assert Concat(pages) + rows + ks[|rows|..] == Concat(pages) + ks;
  }

  /** Keyset paging: the loop sends exactly the events above the cursor, in key order, in pages of at
      most `PAGE_SIZE`, and stops with nothing left above the cursor. */
  method Poll(t: Tables, namespace: string, cursor: Key) returns (pages: seq<seq<Key>>, sent: seq<Response>, next: Key)
    ensures EventPages(t, namespace, pages)
    ensures Concat(pages) == Above(t, namespace, cursor)
    ensures sent == Responses(t, namespace, pages) + [EndOfList]
    ensures Above(t, namespace, next) == []
  {
    pages, sent, next := [], [], cursor;
    var more := true;
    while more
      invariant EventPages(t, namespace, pages)
      invariant Concat(pages) + Above(t, namespace, next) == Above(t, namespace, cursor)
      invariant sent == Responses(t, namespace, pages)
      invariant !more ==> Above(t, namespace, next) == []
      decreases more, |Above(t, namespace, next)|
    {
      var rows := FetchEvents(t, namespace, next);
      if |rows| > 0 {
        PollStep(t, namespace, next, pages, rows);
        var res, c := BuildPage(t, namespace, rows, next);
        pages, sent, next := pages + [rows], sent + [res], c;
      }
      if |rows| < PAGE_SIZE {
        more := false;
      }
    }
    sent := sent + [EndOfList];
  }

  // ----- the snapshot loop -----

  /** A 32-bit signed result, wrapped. */
  function Wrap32(x: int): int {
    (x + 0x8000_0000) % 0x1_0000_0000 - 0x8000_0000
  }

  /** The least number of rows whose last page offset no longer fits 32 bits. */
  const OFFSET_OVERFLOW: nat := 2147483650

  ghost predicate CachePages(cache: map<Uuid, CacheRow>, pages: seq<seq<Uuid>>) {
    forall i :: 0 <= i < |pages| ==> 0 < |pages[i]| <= PAGE_SIZE && AllCached(cache, pages[i])
  }

  ghost function SnapshotResponses(cache: map<Uuid, CacheRow>, pages: seq<seq<Uuid>>): seq<Response>
    requires CachePages(cache, pages)
  {
    seq(|pages|, i requires 0 <= i < |pages| => Page(CacheRows(cache, pages[i]), []))
  }

  /** The answers that the queries of one snapshot get from a cache that does not change; each query has its
      own, as the order of rows of one version is the database's to choose each time. */
  ghost predicate Answers(cache: map<Uuid, CacheRow>, listings: seq<seq<Uuid>>) {
    && |listings| == |cache| / PAGE_SIZE + 1
    && forall i :: 0 <= i < |listings| ==> IsListing(cache, listings[i])
  }

  /** The pages of those queries; the last may be empty. */
  function Cut(listings: seq<seq<Uuid>>): (pages: seq<seq<Uuid>>)
    ensures |pages| == |listings|
  {
    seq(|listings|, i requires 0 <= i < |listings| => Slice(listings[i], PAGE_SIZE * i))
  }

  /** The snapshot loop.  It sends the pages cut from the answers, as far as they have rows; unless there are so
      many rows that an offset wraps to a negative number, which the database refuses. */
  method Snapshot(cache: map<Uuid, CacheRow>, listings: seq<seq<Uuid>>)
    returns (pages: seq<seq<Uuid>>, sent: seq<Response>, ok: bool)
    requires Answers(cache, listings)
    ensures ok <==> |cache| < OFFSET_OVERFLOW
    ensures |pages| <= |listings| && pages == Cut(listings)[..|pages|]
    ensures ok ==> Concat(pages) == Concat(Cut(listings))
    ensures CachePages(cache, pages)
    ensures sent == SnapshotResponses(cache, pages)
    ensures |sent| == |pages| && forall i :: 0 <= i < |sent| ==> ShowsRows(cache, pages[i], sent[i])
  {
    NothingSent(cache);
    hide Cut, Slice, IsListing, CachePages, SnapshotResponses, AllCached, CacheRows;
    pages, sent, ok := [], [], true;
    var i := 0;
    var more := true;
    while more
      invariant 0 <= i < |listings| && PAGE_SIZE * i <= |cache| && ok
      invariant PAGE_SIZE * i < OFFSET_OVERFLOW + PAGE_SIZE
      invariant CachePages(cache, pages) && sent == SnapshotResponses(cache, pages)
      invariant |pages| <= |listings| && pages == Cut(listings)[..|pages|]
      invariant more ==> |pages| == i
      invariant !more ==> |cache| < OFFSET_OVERFLOW
      invariant !more ==> forall j :: |pages| <= j < |listings| ==> Cut(listings)[j] == []
      decreases more, |cache| - PAGE_SIZE * i
    {
      var offset := Wrap32(PAGE_SIZE * i);
      if offset < 0 {
        ok := false;
        AllShown(cache, pages);
        SentOnePerPage(cache, pages);
        return;
      }
      WrapPositive(i);
      PageCut(cache, listings, i);
      var rows := Slice(listings[i], offset);
      if |rows| > 0 {
        SentMore(cache, pages, rows);
        pages, sent := pages + [rows], sent + [Page(CacheRows(cache, rows), [])];
      }
      if |rows| < PAGE_SIZE {
        more := false;
      } else {
        i := i + 1;
      }
    }
    EmptyBehind(Cut(listings), |pages|);
    AllShown(cache, pages);
    SentOnePerPage(cache, pages);
  }

  lemma SentOnePerPage(cache: map<Uuid, CacheRow>, pages: seq<seq<Uuid>>)
    requires CachePages(cache, pages)
    ensures |SnapshotResponses(cache, pages)| == |pages|
  {
  }

  /** The response is a page of the rows under these ids, as the cache has them, field by field, and drops nothing. */
  ghost predicate ShowsRows(cache: map<Uuid, CacheRow>, ids: seq<Uuid>, r: Response) {
    && r.Page? && r.dropped == [] && |r.updated| == |ids|
    && forall j :: 0 <= j < |ids| ==>
         && ids[j] in cache
         && r.updated[j].id == ids[j]
         && r.updated[j].version == cache[ids[j]].version
         && r.updated[j].content.name == cache[ids[j]].content.name
         && r.updated[j].content.spec == cache[ids[j]].content.spec
         && r.updated[j].content.digest == cache[ids[j]].content.digest
  }

  lemma AllShown(cache: map<Uuid, CacheRow>, pages: seq<seq<Uuid>>)
    requires CachePages(cache, pages)
    ensures forall i :: 0 <= i < |pages| ==> ShowsRows(cache, pages[i], SnapshotResponses(cache, pages)[i])
  {
    forall i | 0 <= i < |pages|
      ensures ShowsRows(cache, pages[i], SnapshotResponses(cache, pages)[i])
    {
      assert forall j :: 0 <= j < |pages[i]| ==> pages[i][j] in pages[i];
    }
  }

  /** Empty pages add nothing. */
  lemma {:induction false} EmptyBehind<T>(pages: seq<seq<T>>, n: nat)
    requires n <= |pages| && forall i :: n <= i < |pages| ==> pages[i] == []
    ensures Concat(pages[..n]) == Concat(pages)
  {
    if n < |pages| {
      var init := pages[..|pages| - 1];
      EmptyBehind(init, n);
      assert init[..n] == pages[..n];
    } else {
      assert pages[..n] == pages;
    }
  }

  /** A listing has each row of the cache once. */
  lemma ListingSize(cache: map<Uuid, CacheRow>, listing: seq<Uuid>)
    requires IsListing(cache, listing)
    ensures |listing| == |cache|
  {
    DistinctSize(listing);
  }

  lemma {:induction false} DistinctSize<T>(s: seq<T>)
    requires forall i, j :: 0 <= i < j < |s| ==> s[i] != s[j]
    ensures |Elements(s)| == |s|
  {
    if s == [] {
      assert Elements(s) == {};
    } else {
      var init, last := s[..|s| - 1], s[|s| - 1];
      DistinctSize(init);
      assert s == init + [last];
      assert Elements(s) == Elements(init) + {last};
      assert last !in Elements(init);
    }
  }

  /** The page of one query: it is full while there are rows for it, and then it is the last. */
  lemma PageCut(cache: map<Uuid, CacheRow>, listings: seq<seq<Uuid>>, i: nat)
    requires Answers(cache, listings) && i < |listings| && PAGE_SIZE * i <= |cache|
    ensures
      var rows := Slice(listings[i], PAGE_SIZE * i);
      && AllCached(cache, rows) && rows == Cut(listings)[i]
      && |rows| == (if |cache| - PAGE_SIZE * i <= PAGE_SIZE then |cache| - PAGE_SIZE * i else PAGE_SIZE)
      && (|rows| < PAGE_SIZE <==> i == |listings| - 1)
  {
    ListingSize(cache, listings[i]);
    SliceCached(cache, listings[i], PAGE_SIZE * i);
  }

  lemma NothingSent(cache: map<Uuid, CacheRow>)
    ensures CachePages(cache, []) && SnapshotResponses(cache, []) == []
  {
  }

  lemma SentMore(cache: map<Uuid, CacheRow>, pages: seq<seq<Uuid>>, rows: seq<Uuid>)
    requires CachePages(cache, pages) && AllCached(cache, rows) && 0 < |rows| <= PAGE_SIZE
    ensures CachePages(cache, pages + [rows])
    ensures SnapshotResponses(cache, pages + [rows]) ==
            SnapshotResponses(cache, pages) + [Page(CacheRows(cache, rows), [])]
  {
  }

  lemma SliceCached(cache: map<Uuid, CacheRow>, listing: seq<Uuid>, offset: nat)
    requires IsListing(cache, listing) && offset <= |listing|
    ensures AllCached(cache, Slice(listing, offset))
    ensures |Slice(listing, offset)| == if |listing| - offset <= PAGE_SIZE then |listing| - offset else PAGE_SIZE
    ensures Slice(listing, offset) == listing[offset..offset + |Slice(listing, offset)|]
  {
    var rows := Slice(listing, offset);
    assert forall id :: id in rows ==> id in listing;
    assert forall id :: id in listing ==> id in Elements(listing);
  }

  lemma WrapPositive(i: nat)
    requires PAGE_SIZE * i < OFFSET_OVERFLOW + PAGE_SIZE && Wrap32(PAGE_SIZE * i) >= 0
    ensures PAGE_SIZE * i < OFFSET_OVERFLOW && Wrap32(PAGE_SIZE * i) == PAGE_SIZE * i
  {
  }

  /** A stable order among ties matters: with one row too many for a page, all of one version, two answers
      that order the ties differently can cut pages which together never show a row. */
  lemma UnstableTiesLoseARow(cache: map<Uuid, CacheRow>)
    requires forall id: Uuid :: id in cache <==> id <= PAGE_SIZE
    requires forall id :: id in cache ==> cache[id].version == 0
    ensures exists first: seq<Uuid>, second: seq<Uuid> :: IsListing(cache, first) && IsListing(cache, second)
                                    && PAGE_SIZE !in Slice(first, 0) && PAGE_SIZE !in Slice(second, PAGE_SIZE)
  {
    var up: seq<Uuid> := seq(PAGE_SIZE + 1, i requires 0 <= i => i);
    var down: seq<Uuid> := seq(PAGE_SIZE + 1, i requires 0 <= i <= PAGE_SIZE => PAGE_SIZE - i);
    forall id: Uuid
      ensures id in Elements(up) <==> id in cache.Keys
      ensures id in Elements(down) <==> id in cache.Keys
    {
      if id <= PAGE_SIZE {
        assert up[id] == id && down[PAGE_SIZE - id] == id;
      }
    }
    assert IsListing(cache, up) && IsListing(cache, down);
    assert Slice(down, PAGE_SIZE) == [0];
    assert PAGE_SIZE !in Slice(up, 0) && PAGE_SIZE !in Slice(down, PAGE_SIZE);
  }
}
