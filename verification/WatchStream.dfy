/**
 What a watcher receives, told from the stream alone: which pages there are, what stands in them, field by field,
 and where the lists end.
 */
module WatchStream {
  import opened Wrappers
  import opened Ordering
  import opened ResourceStore
  import opened Watch
  import opened WatchProtocol

  // ----- a page of events -----

  predicate RowLess(a: Row, b: Row) {
    a.version < b.version || (a.version == b.version && a.id < b.id)
  }

  ghost predicate Climbs(rows: seq<Row>) {
    forall i, j :: 0 <= i < j < |rows| ==> RowLess(rows[i], rows[j])
  }

  /** The row tells the event at a key: its id, its version, and all it holds. */
  ghost predicate Tells(t: Tables, namespace: string, k: Key, status: Status, row: Row) {
    && EventKey(namespace, k.version, k.id) in t.events
    && var e := t.events[EventKey(namespace, k.version, k.id)];
       e.status == status && row.id == k.id && row.version == k.version && row.content == e.content
  }

  /** The rows are exactly those of the events at `ks` with a status, in climbing order. */
  ghost predicate ListTells(t: Tables, namespace: string, ks: seq<Key>, status: Status, rows: seq<Row>) {
    Climbs(rows) && forall row :: row in rows <==> exists k :: k in ks && Tells(t, namespace, k, status, row)
  }

  /** The response is a page with each of the events at `ks`, and nothing else. */
  ghost predicate PageTells(t: Tables, namespace: string, ks: seq<Key>, r: Response) {
    && r.Page? && |r.updated| + |r.dropped| == |ks|
    && ListTells(t, namespace, ks, Active, r.updated) && ListTells(t, namespace, ks, Dropped, r.dropped)
  }

  lemma {:induction false} RowsTell(t: Tables, namespace: string, ks: seq<Key>, status: Status)
    requires AllLogged(t, namespace, ks) && Increasing(KeyLess, ks)
    ensures ListTells(t, namespace, ks, status, RowsWith(t, namespace, ks, status))
  {
    if ks != [] {
      var init, last := ks[..|ks| - 1], ks[|ks| - 1];
      RowsTell(t, namespace, init, status);
      RowsTellMore(t, namespace, init, last, status, RowsWith(t, namespace, init, status));
      assert init + [last] == ks;
      assert RowsWith(t, namespace, init, status) + [] == RowsWith(t, namespace, init, status);
    }
  }

  /** One more event adds its row behind the others, if it has the status. */
  lemma RowsTellMore(t: Tables, namespace: string, ks: seq<Key>, last: Key, status: Status, rows: seq<Row>)
    requires Increasing(KeyLess, ks + [last]) && Logged(t, namespace, last)
    requires ListTells(t, namespace, ks, status, rows)
    ensures
      var e := EventOf(t, namespace, last);
      ListTells(t, namespace, ks + [last], status,
                if e.status == status then rows + [Row(last.id, last.version, e.content)] else rows)
  {
    var e, more := EventOf(t, namespace, last), ks + [last];
    var new_ := Row(last.id, last.version, e.content);
    var rows' := if e.status == status then rows + [new_] else rows;
    assert forall k :: k in more <==> k in ks || k == last;
    forall row | row in rows
      ensures RowLess(row, new_)
    {
      var k :| k in ks && Tells(t, namespace, k, status, row);
      var i :| 0 <= i < |ks| && ks[i] == k;
      assert KeyLess(more[i], more[|ks|]);
    }
    forall row
      ensures row in rows' <==> exists k :: k in more && Tells(t, namespace, k, status, row)
    {
      if row in rows {
        var k :| k in ks && Tells(t, namespace, k, status, row);
        assert k in more;
      }
      if e.status == status {
        assert Tells(t, namespace, last, status, new_);
      }
    }
  }

  lemma {:induction false} RowsSplit(t: Tables, namespace: string, ks: seq<Key>)
    requires AllLogged(t, namespace, ks)
    ensures |RowsWith(t, namespace, ks, Active)| + |RowsWith(t, namespace, ks, Dropped)| == |ks|
  {
    if ks != [] {
      RowsSplit(t, namespace, ks[..|ks| - 1]);
    }
  }

  lemma PageIsTold(t: Tables, namespace: string, ks: seq<Key>)
    requires AllLogged(t, namespace, ks) && Increasing(KeyLess, ks)
    ensures PageTells(t, namespace, ks, PageOf(t, namespace, ks))
  {
    RowsTell(t, namespace, ks, Active);
    RowsTell(t, namespace, ks, Dropped);
    RowsSplit(t, namespace, ks);
  }

  /** A page still tells its events after more are logged. */
  lemma StillTold(t: Tables, t': Tables, namespace: string, ks: seq<Key>, r: Response)
    requires AllLogged(t, namespace, ks) && PageTells(t, namespace, ks, r)
    requires forall k :: k in t.events ==> k in t'.events && t'.events[k] == t.events[k]
    ensures PageTells(t', namespace, ks, r)
  {
    forall k, status, row | k in ks
      ensures Tells(t, namespace, k, status, row) <==> Tells(t', namespace, k, status, row)
    {
      assert Logged(t, namespace, k);
    }
  }

  // ----- what one step sends -----

  /** The page of a snapshot query: the rows of the answer at its offset, each with the version and the content
      that the cache has for it, and no drops. */
  ghost predicate PageCached(t: Tables, namespace: string, listing: seq<Uuid>, offset: nat, r: Response) {
    && r.Page? && r.dropped == [] && offset < |listing|
    && |r.updated| == (if |listing| - offset < PAGE_SIZE then |listing| - offset else PAGE_SIZE)
    && forall j :: 0 <= j < |r.updated| ==>
         && var ck := CacheKey(namespace, listing[offset + j]);
         && ck in t.cache && r.updated[j].id == ck.id
         && r.updated[j].version == t.cache[ck].version && r.updated[j].content == t.cache[ck].content
  }

  /** What a step adds to the stream: a commit nothing; a snapshot query one page, if the answer goes on at its
      offset; the query of the greatest key the end of the list; a query of the tail one page, if there are events
      above the cursor, and the end of the list, if there are fewer than a page of them. */
  ghost predicate Sends(namespace: string, s: System, step: Step, added: seq<Response>) {
    if !Enabled(namespace, s, step) then added == []
    else
      match step
      case Commit(_) => added == []
      case SnapshotQuery(listing) =>
        var offset := Wrap32(PAGE_SIZE * s.phase.page);
        if offset < 0 || offset >= |listing| then added == []
        else |added| == 1 && PageCached(s.tables, namespace, listing, offset, added[0])
      case MaxQuery => added == [EndOfList]
      case EventsQuery =>
        var ks := NextEvents(s.tables, namespace, s.phase.cursor);
        var ends := if |KeysAbove(s.tables, namespace, s.phase.cursor)| < PAGE_SIZE then [EndOfList] else [];
        if ks == [] then added == ends
        else |added| == 1 + |ends| && PageTells(s.tables, namespace, ks, added[0]) && added[1..] == ends
  }

  lemma NextEventsClimb(t: Tables, namespace: string, cursor: Key)
    ensures
      var ks := NextEvents(t, namespace, cursor);
      && Increasing(KeyLess, ks) && AllLogged(t, namespace, ks) && |ks| <= PAGE_SIZE
      && (|ks| < PAGE_SIZE <==> |KeysAbove(t, namespace, cursor)| < PAGE_SIZE)
  {
    NextEventsLogged(t, namespace, cursor);
  }

  lemma PageIsCached(t: Tables, namespace: string, listing: seq<Uuid>, offset: nat)
    requires IsListing(CacheOf(t, namespace), listing) && offset < |listing|
    ensures AllCached(CacheOf(t, namespace), Slice(listing, offset))
    ensures PageCached(t, namespace, listing, offset,
            Page(CacheRows(CacheOf(t, namespace), Slice(listing, offset)), []))
  {
    var cache, rows := CacheOf(t, namespace), Slice(listing, offset);
    SliceCached(cache, listing, offset);
    forall j | 0 <= j < |rows|
      ensures CacheKey(namespace, listing[offset + j]) in t.cache && rows[j] == listing[offset + j]
      ensures cache[rows[j]] == t.cache[CacheKey(namespace, listing[offset + j])]
    {
      assert rows[j] in rows;
      CacheOfAt(t, namespace, rows[j]);
    }
  }

  /** Every step, in every state, sends just that, behind what was sent before. */
  lemma StepSends(parse: Parser, namespace: string, s: System, step: Step)
    ensures
      var s' := Next(parse, namespace, s, step);
      s.sent <= s'.sent && Sends(namespace, s, step, s'.sent[|s.sent|..])
  {
    if Enabled(namespace, s, step) {
      match step
      case Commit(_) =>
      case SnapshotQuery(listing) =>
        var offset := Wrap32(PAGE_SIZE * s.phase.page);
        if 0 <= offset < |listing| {
          PageIsCached(s.tables, namespace, listing, offset);
        }
      case MaxQuery =>
      case EventsQuery =>
        NextEventsClimb(s.tables, namespace, s.phase.cursor);
        PageIsTold(s.tables, namespace, NextEvents(s.tables, namespace, s.phase.cursor));
    }
  }

  // ----- the tail of a run -----

  /** The pages of a stretch of the stream. */
  function Pages(sent: seq<Response>): (pages: seq<Response>)
    ensures forall r :: r in pages ==> r in sent && r.Page?
  {
    if sent == [] then []
    else Pages(sent[..|sent| - 1]) + if sent[|sent| - 1].Page? then [sent[|sent| - 1]] else []
  }

  /** How much was sent before the tail began. */
  ghost function SentBefore(parse: Parser, namespace: string, steps: seq<Step>): nat {
    if steps == [] then 0
    else
      var init := steps[..|steps| - 1];
      if After(parse, namespace, init).phase.Tailing? then SentBefore(parse, namespace, init)
      else |After(parse, namespace, steps).sent|
  }

  /** The pages cut a list of keys into stretches, and each page tells the events of its own stretch. */
  ghost predicate CutsInto(t: Tables, namespace: string, keys: seq<Key>, pages: seq<Response>, cut: seq<seq<Key>>) {
    && |cut| == |pages| && Concat(cut) == keys
    && forall i :: 0 <= i < |cut| ==>
         && 0 < |cut[i]| <= PAGE_SIZE && AllLogged(t, namespace, cut[i])
         && PageTells(t, namespace, cut[i], pages[i])
  }

  ghost predicate Tailed(namespace: string, s: System, from: nat) {
    s.phase.Tailing? ==>
      from <= |s.sent| && exists cut :: CutsInto(s.tables, namespace, s.tail.keys, Pages(s.sent[from..]), cut)
  }

  lemma PagesMore(sent: seq<Response>, added: seq<Response>)
    requires |added| <= 2
    ensures Pages(sent + added) == Pages(sent) + (if |added| > 0 && added[0].Page? then [added[0]] else [])
                                              + (if |added| > 1 && added[1].Page? then [added[1]] else [])
  {
    if |added| == 0 {
      assert sent + added == sent;
    } else {
      assert (sent + added)[..|sent + added| - 1] == sent + added[..|added| - 1];
      if |added| == 2 {
        assert (sent + [added[0]])[..|sent|] == sent;
        assert added[..1] == [added[0]];
      } else {
        assert sent + [] == sent;
      }
    }
  }

  lemma CutMore(t: Tables, namespace: string, keys: seq<Key>, pages: seq<Response>, cut: seq<seq<Key>>, ks: seq<Key>,
      page: Response)
    requires CutsInto(t, namespace, keys, pages, cut)
    requires 0 < |ks| <= PAGE_SIZE && AllLogged(t, namespace, ks) && PageTells(t, namespace, ks, page)
    ensures CutsInto(t, namespace, keys + ks, pages + [page], cut + [ks])
  {
    hide PageTells, AllLogged;
    assert (cut + [ks])[..|cut|] == cut;
  }

  lemma CutKept(parse: Parser, t: Tables, op: Op, namespace: string, keys: seq<Key>, pages: seq<Response>,
      cut: seq<seq<Key>>)
    requires CutsInto(t, namespace, keys, pages, cut)
    ensures CutsInto(Exec(parse, t, op), namespace, keys, pages, cut)
  {
    ExecOnlyAdds(parse, t, op);
    var t' := Exec(parse, t, op);
    hide Exec, PageTells;
    forall i | 0 <= i < |cut|
      ensures AllLogged(t', namespace, cut[i]) && PageTells(t', namespace, cut[i], pages[i])
    {
      StillTold(t, t', namespace, cut[i], pages[i]);
    }
  }

  /** The pages of the stream after one more query of the tail. */
  lemma QueryPages(namespace: string, s: System, from: nat)
    requires s.phase.Tailing? && from <= |s.sent|
    ensures
      var s', ks := AfterEventsQuery(namespace, s), NextEvents(s.tables, namespace, s.phase.cursor);
      && s.sent <= s'.sent && AllLogged(s.tables, namespace, ks)
      && Pages(s'.sent[from..]) == Pages(s.sent[from..]) + if ks == [] then [] else [PageOf(s.tables, namespace, ks)]
  {
    var s', ks := AfterEventsQuery(namespace, s), NextEvents(s.tables, namespace, s.phase.cursor);
    NextEventsLogged(s.tables, namespace, s.phase.cursor);
    hide NextEvents, PageOf, Pages;
    var added := (if ks == [] then [] else [PageOf(s.tables, namespace, ks)])
                 + (if |ks| < PAGE_SIZE then [EndOfList] else []);
    assert s'.sent[from..] == s.sent[from..] + added;
    IsPage(s.tables, namespace, ks);
    PagesMore(s.sent[from..], added);
  }

  lemma IsPage(t: Tables, namespace: string, ks: seq<Key>)
    requires AllLogged(t, namespace, ks)
    ensures PageOf(t, namespace, ks).Page?
  {
  }

  lemma QueryState(namespace: string, s: System)
    requires s.phase.Tailing?
    ensures
      var s' := AfterEventsQuery(namespace, s);
      && s'.tail.keys == s.tail.keys + NextEvents(s.tables, namespace, s.phase.cursor)
      && s'.tables == s.tables && s'.phase.Tailing?
  {
    hide NextEvents;
  }

  lemma QueryTailed(namespace: string, s: System, from: nat)
    requires s.phase.Tailing? && Tailed(namespace, s, from)
    ensures Tailed(namespace, AfterEventsQuery(namespace, s), from)
  {
    hide CutsInto, PageTells, PageOf, Pages, NextEvents, AfterEventsQuery;
    var s', ks := AfterEventsQuery(namespace, s), NextEvents(s.tables, namespace, s.phase.cursor);
    var pages := Pages(s.sent[from..]);
    var cut :| CutsInto(s.tables, namespace, s.tail.keys, pages, cut);
    QueryPages(namespace, s, from);
    QueryState(namespace, s);
    NextEventsClimb(s.tables, namespace, s.phase.cursor);
    if ks == [] {
      assert s.tail.keys + ks == s.tail.keys && pages + [] == pages;
    } else {
      PageIsTold(s.tables, namespace, ks);
      CutMore(s.tables, namespace, s.tail.keys, pages, cut, ks, PageOf(s.tables, namespace, ks));
    }
  }

  /** The greatest key is that of an event, and bounds all events; there is none only if there is no event. */
  lemma MaxKeyExact(t: Tables, namespace: string)
    ensures
      match MaxKey(t, namespace)
      case None => forall k :: !Logged(t, namespace, k)
      case Some(max) => Logged(t, namespace, max) && forall k :: Logged(t, namespace, k) ==> !KeyLess(max, k)
  {
    var ks := LogOf(t, namespace);
    if ks != [] {
      assert ks[|ks| - 1] in ks;
      MaxBounds(t, namespace, ks[|ks| - 1]);
    } else {
      assert forall k :: Logged(t, namespace, k) ==> k in ks;
    }
  }

  lemma {:induction false} AlwaysTailed(parse: Parser, namespace: string, steps: seq<Step>)
    ensures Tailed(namespace, After(parse, namespace, steps), SentBefore(parse, namespace, steps))
  {
    if steps != [] {
      var init, step := steps[..|steps| - 1], steps[|steps| - 1];
      var s := After(parse, namespace, init);
      AlwaysTailed(parse, namespace, init);
      if s.phase.Tailing? {
        if Enabled(namespace, s, step) {
          TailedNext(parse, namespace, s, step, SentBefore(parse, namespace, init));
        }
      } else {
        TailBegins(parse, namespace, s, step);
      }
    }
  }

  lemma TailedNext(parse: Parser, namespace: string, s: System, step: Step, from: nat)
    requires s.phase.Tailing? && Tailed(namespace, s, from) && Enabled(namespace, s, step)
    ensures Tailed(namespace, Next(parse, namespace, s, step), from)
  {
    if step.Commit? {
      var cut :| CutsInto(s.tables, namespace, s.tail.keys, Pages(s.sent[from..]), cut);
      CutKept(parse, s.tables, step.op, namespace, s.tail.keys, Pages(s.sent[from..]), cut);
    } else {
      QueryTailed(namespace, s, from);
    }
  }

  lemma TailBegins(parse: Parser, namespace: string, s: System, step: Step)
    requires !s.phase.Tailing?
    ensures Tailed(namespace, Next(parse, namespace, s, step), |Next(parse, namespace, s, step).sent|)
  {
    var s' := Next(parse, namespace, s, step);
    if s'.phase.Tailing? {
      assert s'.tail.keys == [] && s'.sent[|s'.sent|..] == [];
      assert Pages(s'.sent[|s'.sent|..]) == [];
      assert CutsInto(s'.tables, namespace, s'.tail.keys, Pages(s'.sent[|s'.sent|..]), []);
    }
  }

  function RowsOf(r: Response, status: Status): seq<Row>
    requires r.Page?
  {
    if status == Active then r.updated else r.dropped
  }

  /** The row stands on some page, in the list of its status. */
  ghost predicate Received(pages: seq<Response>, status: Status, row: Row) {
    exists i :: 0 <= i < |pages| && pages[i].Page? && row in RowsOf(pages[i], status)
  }

  /** The pages hold exactly the rows of the events at `keys`: 1 to 50 on a page, each list climbing, each page above
      those before it, and so none twice. */
  ghost predicate StreamExact(t: Tables, namespace: string, keys: seq<Key>, pages: seq<Response>) {
    && (forall i :: 0 <= i < |pages| ==>
          && pages[i].Page? && 0 < |pages[i].updated| + |pages[i].dropped| <= PAGE_SIZE
          && Climbs(pages[i].updated) && Climbs(pages[i].dropped))
    && (forall i, j, a, b, p, q :: 0 <= i < j < |pages| && p in RowsOf(pages[i], a) && q in RowsOf(pages[j], b) ==>
         RowLess(p, q))
    && (forall i, p, q :: 0 <= i < |pages| && p in pages[i].updated && q in pages[i].dropped ==>
         RowLess(p, q) || RowLess(q, p))
    && (forall status, row :: Received(pages, status, row) <==>
         exists k :: k in keys && Tells(t, namespace, k, status, row))
  }

  lemma {:induction false} InConcat(cut: seq<seq<Key>>, k: Key)
    ensures k in Concat(cut) <==> exists i :: 0 <= i < |cut| && k in cut[i]
  {
    if cut != [] {
      InConcat(cut[..|cut| - 1], k);
    }
  }

  lemma PartsClimb(a: seq<Key>, b: seq<Key>)
    requires Increasing(KeyLess, a + b)
    ensures Increasing(KeyLess, a) && Increasing(KeyLess, b)
  {
    var s := a + b;
    assert forall i :: 0 <= i < |a| ==> a[i] == s[i];
    assert forall i :: 0 <= i < |b| ==> b[i] == s[|a| + i];
  }

  /** Of a climbing whole, each stretch lies above those before it. */
  lemma {:induction false} StretchesClimb(cut: seq<seq<Key>>, i: nat, j: nat, a: Key, b: Key)
    requires Increasing(KeyLess, Concat(cut)) && i < j < |cut| && a in cut[i] && b in cut[j]
    ensures KeyLess(a, b)
  {
    var init, last := cut[..|cut| - 1], cut[|cut| - 1];
    var before := Concat(init);
    if j < |cut| - 1 {
      PartsClimb(before, last);
      StretchesClimb(init, i, j, a, b);
    } else {
      InConcat(init, a);
      var m :| 0 <= m < |before| && before[m] == a;
      var n :| 0 <= n < |last| && last[n] == b;
      assert (before + last)[m] == a && (before + last)[|before| + n] == b;
    }
  }

  lemma PagesApart(t: Tables, namespace: string, keys: seq<Key>, pages: seq<Response>, cut: seq<seq<Key>>,
                   i: nat, j: nat, a: Status, b: Status, p: Row, q: Row)
    requires CutsInto(t, namespace, keys, pages, cut) && Increasing(KeyLess, keys)
    requires i < j < |pages| && pages[i].Page? && pages[j].Page? && p in RowsOf(pages[i], a) && q in RowsOf(pages[j], b)
    ensures RowLess(p, q)
  {
    var k :| k in cut[i] && Tells(t, namespace, k, a, p);
    var l :| l in cut[j] && Tells(t, namespace, l, b, q);
    StretchesClimb(cut, i, j, k, l);
  }

  lemma ListsApart(t: Tables, namespace: string, ks: seq<Key>, r: Response, p: Row, q: Row)
    requires PageTells(t, namespace, ks, r) && p in r.updated && q in r.dropped
    ensures RowLess(p, q) || RowLess(q, p)
  {
    var k :| k in ks && Tells(t, namespace, k, Active, p);
    var l :| l in ks && Tells(t, namespace, l, Dropped, q);
    assert k != l;
  }

  lemma ReceivedTells(t: Tables, namespace: string, keys: seq<Key>, pages: seq<Response>, cut: seq<seq<Key>>,
      status: Status, row: Row)
    requires CutsInto(t, namespace, keys, pages, cut)
    ensures Received(pages, status, row) <==> exists k :: k in keys && Tells(t, namespace, k, status, row)
  {
    if Received(pages, status, row) {
      var i :| 0 <= i < |pages| && pages[i].Page? && row in RowsOf(pages[i], status);
      var k :| k in cut[i] && Tells(t, namespace, k, status, row);
      InConcat(cut, k);
    }
    if k :| k in keys && Tells(t, namespace, k, status, row) {
      InConcat(cut, k);
      var i :| 0 <= i < |cut| && k in cut[i];
      assert PageTells(t, namespace, cut[i], pages[i]);
      assert row in RowsOf(pages[i], status);
    }
  }

  lemma CutsExact(t: Tables, namespace: string, keys: seq<Key>, pages: seq<Response>, cut: seq<seq<Key>>)
    requires CutsInto(t, namespace, keys, pages, cut) && Increasing(KeyLess, keys)
    ensures StreamExact(t, namespace, keys, pages)
  {
    forall i | 0 <= i < |pages|
      ensures pages[i].Page? && 0 < |pages[i].updated| + |pages[i].dropped| <= PAGE_SIZE
      ensures Climbs(pages[i].updated) && Climbs(pages[i].dropped)
    {
      assert PageTells(t, namespace, cut[i], pages[i]);
    }
    forall i, j, a, b, p, q | 0 <= i < j < |pages| && p in RowsOf(pages[i], a) && q in RowsOf(pages[j], b)
      ensures RowLess(p, q)
    {
      PagesApart(t, namespace, keys, pages, cut, i, j, a, b, p, q);
    }
    forall i, p, q | 0 <= i < |pages| && p in pages[i].updated && q in pages[i].dropped
      ensures RowLess(p, q) || RowLess(q, p)
    {
      ListsApart(t, namespace, cut[i], pages[i], p, q);
    }
    forall status, row
      ensures Received(pages, status, row) <==> exists k :: k in keys && Tells(t, namespace, k, status, row)
    {
      ReceivedTells(t, namespace, keys, pages, cut, status, row);
    }
  }

  /** What the tail of a run has sent so far. */
  ghost function TailPages(parse: Parser, namespace: string, steps: seq<Step>): seq<Response> {
    var s, from := After(parse, namespace, steps), SentBefore(parse, namespace, steps);
    if from <= |s.sent| then Pages(s.sent[from..]) else []
  }

  /** The tail's stream is exact, over every interleaving: its pages hold the rows of just the events counted as sent,
      each once, in climbing order. */
  lemma TailStreamExact(parse: Parser, namespace: string, steps: seq<Step>)
    requires After(parse, namespace, steps).phase.Tailing?
    ensures
      var s := After(parse, namespace, steps);
      StreamExact(s.tables, namespace, s.tail.keys, TailPages(parse, namespace, steps))
  {
    var s, pages := After(parse, namespace, steps), TailPages(parse, namespace, steps);
    AlwaysTailed(parse, namespace, steps);
    WatchExact(parse, namespace, steps);
    hide After, PollEnds, CutsInto, StreamExact;
    var cut :| CutsInto(s.tables, namespace, s.tail.keys, pages, cut);
    PartsClimb([s.tail.start], s.tail.keys);
    CutsExact(s.tables, namespace, s.tail.keys, pages, cut);
  }

  /** When a poll ends, the row of an event above the start of the tail has been received if and only if the event was
      above the cursor when it committed. */
  lemma ReceivedExact(parse: Parser, namespace: string, steps: seq<Step>, k: Key, status: Status, row: Row)
    requires PollEnds(parse, namespace, steps)
    requires
      var s := After(parse, namespace, steps);
      s.phase.Tailing? && KeyLess(s.tail.start, k) && Tells(s.tables, namespace, k, status, row)
    ensures
      var s := After(parse, namespace, steps);
      && k in s.tail.cursorAt
      && (Received(TailPages(parse, namespace, steps), status, row) <==> KeyLess(s.tail.cursorAt[k], k))
  {
    TailStreamExact(parse, namespace, steps);
    WatchExact(parse, namespace, steps);
    var s := After(parse, namespace, steps);
    hide After, PollEnds;
    assert Logged(s.tables, namespace, k);
    forall l | Tells(s.tables, namespace, l, status, row)
      ensures l == k
    {
    }
  }

  /** The end of a list is sent by the step that ends a poll and by the query of the greatest key, once, behind all
      else that the step sends, and by no other. */
  lemma ListEndsExactly(parse: Parser, namespace: string, steps: seq<Step>, step: Step)
    ensures
      var s, s' := After(parse, namespace, steps), After(parse, namespace, steps + [step]);
      && s.sent <= s'.sent
      && var added := s'.sent[|s.sent|..];
      && (EndOfList in added <==>
            PollEnds(parse, namespace, steps + [step]) || (step.MaxQuery? && s.phase.ReadMax?))
      && (forall i :: 0 <= i < |added| && added[i] == EndOfList ==> i == |added| - 1)
  {
    var s := After(parse, namespace, steps);
    assert (steps + [step])[..|steps|] == steps;
    StepSends(parse, namespace, s, step);
    hide After, Next;
    if step.EventsQuery? && s.phase.Tailing? {
      NextEventsClimb(s.tables, namespace, s.phase.cursor);
    }
  }

  // ----- the snapshot of a run -----

  /** How much was sent before the snapshot at hand began. */
  ghost function SentBeforeSnapshot(parse: Parser, namespace: string, steps: seq<Step>): nat {
    var s := After(parse, namespace, steps);
    if steps == [] || (s.phase.Paging? && s.phase.page == 0) then |s.sent|
    else SentBeforeSnapshot(parse, namespace, steps[..|steps| - 1])
  }

  /** So many full pages without drops were sent from there. */
  ghost predicate FullPages(sent: seq<Response>, from: nat, pages: nat) {
    && |sent| == from + pages
    && forall i :: from <= i < |sent| ==> sent[i].Page? && |sent[i].updated| == PAGE_SIZE && sent[i].dropped == []
  }

  /** Over every run each query of a snapshot that is still at it has sent one page, and a full one. */
  lemma {:induction false} SnapshotSendsOnce(parse: Parser, namespace: string, steps: seq<Step>)
    ensures
      var s := After(parse, namespace, steps);
      s.phase.Paging? ==> FullPages(s.sent, SentBeforeSnapshot(parse, namespace, steps), s.phase.page)
  {
    if steps != [] {
      var init, step := steps[..|steps| - 1], steps[|steps| - 1];
      var s, s' := After(parse, namespace, init), After(parse, namespace, steps);
      SnapshotSendsOnce(parse, namespace, init);
      if s'.phase.Paging? && s'.phase.page > 0 {
        PagingNext(parse, namespace, s, step, SentBeforeSnapshot(parse, namespace, init));
      }
    }
  }

  lemma PagingNext(parse: Parser, namespace: string, s: System, step: Step, from: nat)
    requires s.phase.Paging? ==> FullPages(s.sent, from, s.phase.page)
    requires Next(parse, namespace, s, step).phase.Paging? && Next(parse, namespace, s, step).phase.page > 0
    ensures FullPages(Next(parse, namespace, s, step).sent, from, Next(parse, namespace, s, step).phase.page)
  {
    if Enabled(namespace, s, step) && step.SnapshotQuery? {
      var offset := Wrap32(PAGE_SIZE * s.phase.page);
      StepSends(parse, namespace, s, step);
    }
  }
}
