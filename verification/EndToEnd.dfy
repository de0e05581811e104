/**
 The whole chain: store, watch stream, gateway.

 The gateway's active policies are a function of the responses it has handled.  Under the conditions
 of `Good`, they are the decoded cache each time the end of a list is handled.
 */
module EndToEnd {
  import opened Wrappers
  import opened Changes
  import opened Ordering
  import opened ResourceStore
  import opened Watch
  import opened WatchProtocol
  import opened Gateway
  import opened Consumers
  import SnapshotCoverage

  /** The active policies after a stream of responses; each page is one `Gateway.HandlePage`. */
  function Handled(decode: Decoder, sent: seq<Response>): Policies {
    if sent == [] then map[]
    else
      match sent[|sent| - 1]
      case Page(updated, dropped) => AfterPage(decode, Handled(decode, sent[..|sent| - 1]), updated, dropped)
      case EndOfList => Handled(decode, sent[..|sent| - 1])
  }

  lemma HandledOne(decode: Decoder, sent: seq<Response>, r: Response)
    ensures Handled(decode, sent + [r]) ==
            if r.Page? then AfterPage(decode, Handled(decode, sent), r.updated, r.dropped) else Handled(decode, sent)
  {
    assert (sent + [r])[..|sent|] == sent;
  }

  /** The cached rows as policies. */
  function DecodedCache(decode: Decoder, cache: map<Uuid, CacheRow>): Policies {
    map id | id in cache && decode(cache[id].content.spec).Some? :: decode(cache[id].content.spec).value
  }

  /** All specs of the namespace decode; what other namespaces hold is not asked about. */
  ghost predicate AllDecode(decode: Decoder, t: Tables, namespace: string) {
    && (forall k :: k in t.events && k.namespace == namespace ==> decode(t.events[k].content.spec).Some?)
    && (forall ck :: ck in t.cache && ck.namespace == namespace ==> decode(t.cache[ck].content.spec).Some?)
  }

  /** The events that the cursor has passed. */
  ghost function UpTo(t: Tables, namespace: string, cursor: Key): (ks: seq<Key>)
    ensures Increasing(KeyLess, ks) && AllLogged(t, namespace, ks)
    ensures forall k :: k in ks <==> Logged(t, namespace, k) && !KeyLess(cursor, k)
  {
    KeyOrder();
    KeysOfLogged(t, namespace);
    var ks := Ascending(KeyLess, set k | k in KeysOf(t, namespace) && !KeyLess(cursor, k));
    assert forall k :: k in ks <==> k in Elements(ks);
    ks
  }

  // ----- the conditions -----

  /** The rows before the page at hand are the same in this answer as in the last; rows of one version may
      trade places within a page. */
  predicate SameBefore(phase: Phase, listing: seq<Uuid>)
    requires phase.Paging?
  {
    Elements(Take(listing, PAGE_SIZE * phase.page)) == Elements(Take(phase.listing, PAGE_SIZE * phase.page))
  }

  /** What the theorem asks of a step: specs of the namespace decode, nothing of it is written during a snapshot,
      each answer of the listing has the same rows before the page as the answer before it, tailed events commit
      above the cursor, and no page drops an id last that it also updates. */
  ghost predicate Good(decode: Decoder, parse: Parser, namespace: string, s: System, step: Step) {
    match step
    case Commit(op) =>
      var t := Exec(parse, s.tables, op);
      && AllDecode(decode, t, namespace)
      && (s.phase.ReadMax? || (s.phase.Paging? && s.phase.page > 0) ==>
            && CacheOf(t, namespace) == CacheOf(s.tables, namespace)
            && KeysOf(t, namespace) == KeysOf(s.tables, namespace))
      && (s.phase.Tailing? ==>
            forall k :: k in KeysOf(t, namespace) - KeysOf(s.tables, namespace) ==> KeyLess(s.phase.cursor, k))
    case SnapshotQuery(listing) => s.phase.Paging? && s.phase.page > 0 ==> SameBefore(s.phase, listing)
    case MaxQuery => true
    case EventsQuery =>
      s.phase.Tailing? ==>
        && var rows := NextEvents(s.tables, namespace, s.phase.cursor);
        AllLogged(s.tables, namespace, rows) && MixedEndsSet(PolicyChanges(decode, s.tables, namespace, rows))
  }

  /** That is so of any two answers, if pages end where versions end. */
  lemma SameBeforeVersions(cache: map<Uuid, CacheRow>, phase: Phase, listing: seq<Uuid>)
    requires phase.Paging? && IsListing(cache, phase.listing) && IsListing(cache, listing)
    requires SnapshotCoverage.PagesEndVersions(cache)
    ensures SameBefore(phase, listing)
  {
    SnapshotCoverage.SamePrefix(cache, listing, phase.listing, phase.page);
  }

  ghost predicate GoodRun(decode: Decoder, parse: Parser, namespace: string, steps: seq<Step>) {
    steps == [] ||
    (GoodRun(decode, parse, namespace, steps[..|steps| - 1]) &&
     Good(decode, parse, namespace, After(parse, namespace, steps[..|steps| - 1]), steps[|steps| - 1]))
  }

  // ----- the invariant -----

  ghost predicate InLine(decode: Decoder, namespace: string, s: System) {
    var replica := Handled(decode, s.sent);
    var cache := CacheOf(s.tables, namespace);
    match s.phase
    case Paging(0, _) => replica == map[]
    case Paging(page, listing) =>
      && IsListing(cache, listing) && PAGE_SIZE * page <= |listing| && PAGE_SIZE * page < OFFSET_OVERFLOW + PAGE_SIZE
      && (forall i :: 0 <= i < PAGE_SIZE * page ==> listing[i] in cache)
      && replica == DecodedCache(decode, Listed(cache, listing[..PAGE_SIZE * page]))
    case ReadMax => replica == DecodedCache(decode, cache)
    case Tailing(cursor) =>
      replica == Replay(map[], PolicyChanges(decode, s.tables, namespace, UpTo(s.tables, namespace, cursor)))
    case Failed => true
  }

  /** The rows of the cache under some of its ids. */
  function Listed(cache: map<Uuid, CacheRow>, ids: seq<Uuid>): map<Uuid, CacheRow> {
    map id | id in ids && id in cache :: cache[id]
  }

  ghost predicate Invariant(decode: Decoder, namespace: string, s: System) {
    Consistent(s.tables, s.clock) && AllDecode(decode, s.tables, namespace) && InLine(decode, namespace, s)
  }

  // ----- replaying policies and replaying rows -----

  /** A logged event of the namespace is one change of the rows and one of the policies. */
  lemma OneChange(decode: Decoder, t: Tables, namespace: string, k: Key)
    requires Logged(t, namespace, k) && AllDecode(decode, t, namespace)
    ensures |PolicyChange(decode, t, namespace, k)| == 1
    ensures
      var row, policy := ChangeAt(t, namespace, k), PolicyChange(decode, t, namespace, k)[0];
      && (row.Set? ==> decode(row.value.content.spec).Some?)
      && policy == if row.Set? then Set(row.key, decode(row.value.content.spec).value) else Unset(row.key)
  {
    assert EventKey(namespace, k.version, k.id) in t.events;
  }

  lemma ChangesOneMore(decode: Decoder, t: Tables, namespace: string, ks: seq<Key>)
    requires AllLogged(t, namespace, ks) && ks != []
    ensures
      var init, k := ks[..|ks| - 1], ks[|ks| - 1];
      && ChangesAt(t, namespace, ks) == ChangesAt(t, namespace, init) + [ChangeAt(t, namespace, k)]
      && PolicyChanges(decode, t, namespace, ks) ==
           PolicyChanges(decode, t, namespace, init) + PolicyChange(decode, t, namespace, k)
  {
  }

  lemma {:induction false} DecodeCommutes(decode: Decoder, t: Tables, namespace: string, ks: seq<Key>)
    requires AllLogged(t, namespace, ks) && AllDecode(decode, t, namespace)
    ensures Replay(map[], PolicyChanges(decode, t, namespace, ks)) ==
            DecodedCache(decode, Replay(map[], ChangesAt(t, namespace, ks)))
  {
    if ks == [] {
      assert DecodedCache(decode, map[]) == map[];
    } else {
      var init, k := ks[..|ks| - 1], ks[|ks| - 1];
      OneChange(decode, t, namespace, k);
      ChangesOneMore(decode, t, namespace, ks);
      hide Replay, DecodedCache, Apply, AllDecode, Logged, ChangesAt, ChangeAt, PolicyChange, PolicyChanges;
      DecodeCommutes(decode, t, namespace, init);
      var rows, policies := ChangesAt(t, namespace, init), PolicyChanges(decode, t, namespace, init);
      var row, policy := ChangeAt(t, namespace, k), PolicyChange(decode, t, namespace, k)[0];
      ReplayOneMore(map[], rows, row);
      ReplayOneMore(map[], policies, policy);
      DecodedApply(decode, Replay(map[], rows), row);
    }
  }

  lemma DecodedApply(decode: Decoder, m: map<Uuid, CacheRow>, c: Change<Uuid, CacheRow>)
    requires c.Set? ==> decode(c.value.content.spec).Some?
    ensures DecodedCache(decode, Apply(m, c)) ==
            Apply(DecodedCache(decode, m),
                  if c.Set? then Set(c.key, decode(c.value.content.spec).value) else Unset(c.key))
  {
  }

  /** The whole log of a consistent store, replayed as policies, is the decoded cache. */
  lemma PoliciesOfLog(decode: Decoder, t: Tables, clock: int, namespace: string)
    requires Consistent(t, clock) && AllDecode(decode, t, namespace)
    ensures AllLogged(t, namespace, LogOf(t, namespace))
    ensures Replay(map[], PolicyChanges(decode, t, namespace, LogOf(t, namespace))) ==
            DecodedCache(decode, CacheOf(t, namespace))
  {
    DecodeCommutes(decode, t, namespace, LogOf(t, namespace));
    LogIsCache(t, clock, namespace);
  }

  lemma UpToAll(t: Tables, namespace: string, cursor: Key)
    requires forall k :: Logged(t, namespace, k) ==> !KeyLess(cursor, k)
    ensures UpTo(t, namespace, cursor) == LogOf(t, namespace)
  {
    KeyOrder();
    var a, b := UpTo(t, namespace, cursor), LogOf(t, namespace);
    assert forall k :: k in Elements(a) <==> k in a;
    assert forall k :: k in Elements(b) <==> k in b;
    AscendingUnique(KeyLess, a, b);
  }

  // ----- the snapshot -----

  lemma {:induction false} DecodedSnapshot(decode: Decoder, cache: map<Uuid, CacheRow>, ids: seq<Uuid>, m: Policies)
    requires AllCached(cache, ids)
    ensures m + Decoded(decode, CacheRows(cache, ids)) == m + DecodedCache(decode, Listed(cache, ids))
  {
    if ids == [] {
      assert Decoded(decode, CacheRows(cache, ids)) == DecodedCache(decode, Listed(cache, ids));
    } else {
      var init, id := ids[..|ids| - 1], ids[|ids| - 1];
      var rows := CacheRows(cache, ids);
      assert rows[..|rows| - 1] == CacheRows(cache, init);
      DecodedSnapshot(decode, cache, init, m);
      DecodedStep(decode, rows, m);
      ListedStep(decode, cache, init, id, m);
      assert init + [id] == ids;
    }
  }

  lemma ListedStep(decode: Decoder, cache: map<Uuid, CacheRow>, init: seq<Uuid>, id: Uuid, m: Policies)
    requires id in cache
    ensures
      var before, after := DecodedCache(decode, Listed(cache, init)), DecodedCache(decode, Listed(cache, init + [id]));
      m + after == match decode(cache[id].content.spec)
                   case None => m + before
                   case Some(p) => (m + before)[id := p]
  {
    assert forall x :: x in init + [id] <==> x in init || x == id;
  }

  lemma ListedAppend(decode: Decoder, cache: map<Uuid, CacheRow>, a: seq<Uuid>, b: seq<Uuid>)
    ensures DecodedCache(decode, Listed(cache, a)) + DecodedCache(decode, Listed(cache, b)) ==
            DecodedCache(decode, Listed(cache, a + b))
  {
    assert forall x :: x in a + b <==> x in a || x in b;
  }

  /** A page of the snapshot, handled on top of the rows listed before it. */
  lemma SnapshotPageHandled(decode: Decoder, cache: map<Uuid, CacheRow>, before: seq<Uuid>, ids: seq<Uuid>,
      active: Policies)
    requires AllCached(cache, ids)
    requires active == DecodedCache(decode, Listed(cache, before))
    ensures AfterPage(decode, active, CacheRows(cache, ids), []) == DecodedCache(decode, Listed(cache, before + ids))
  {
    DecodedSnapshot(decode, cache, ids, active);
    ListedAppend(decode, cache, before, ids);
    assert active - Decoded(decode, []).Keys == active;
  }

  lemma NothingListed(decode: Decoder, cache: map<Uuid, CacheRow>)
    ensures DecodedCache(decode, Listed(cache, [])) == map[]
  {
  }

  lemma ListedSame(cache: map<Uuid, CacheRow>, a: seq<Uuid>, b: seq<Uuid>)
    requires Elements(a) == Elements(b)
    ensures Listed(cache, a) == Listed(cache, b)
  {
    assert forall id :: id in a <==> id in Elements(a);
    assert forall id :: id in b <==> id in Elements(b);
  }

  lemma ListedAll(cache: map<Uuid, CacheRow>, listing: seq<Uuid>)
    requires IsListing(cache, listing)
    ensures Listed(cache, listing) == cache && forall i :: 0 <= i < |listing| ==> listing[i] in cache
  {
    assert forall id :: id in listing <==> id in Elements(listing);
  }

  /** What the stream amounts to after one more page of the snapshot. */
  lemma SnapshotSent(decode: Decoder, cache: map<Uuid, CacheRow>, listing: seq<Uuid>, offset: nat, sent: seq<Response>)
    requires IsListing(cache, listing) && offset <= |listing|
    requires Handled(decode, sent) == DecodedCache(decode, Listed(cache, listing[..offset]))
    ensures
      var rows := Slice(listing, offset);
      && AllCached(cache, rows)
      && var sent' := if rows == [] then sent else sent + [Page(CacheRows(cache, rows), [])];
         Handled(decode, sent') == DecodedCache(decode, Listed(cache, listing[..offset + |rows|]))
  {
    var rows := Slice(listing, offset);
    SliceCached(cache, listing, offset);
    assert listing[..offset] + rows == listing[..offset + |rows|];
    SnapshotPageHandled(decode, cache, listing[..offset], rows, Handled(decode, sent));
    HandledOne(decode, sent, Page(CacheRows(cache, rows), []));
  }

  lemma SnapshotInLine(decode: Decoder, namespace: string, s: System, listing: seq<Uuid>)
    requires Invariant(decode, namespace, s)
    requires Enabled(namespace, s, SnapshotQuery(listing))
    requires s.phase.page > 0 ==> SameBefore(s.phase, listing)
    ensures InLine(decode, namespace, AfterSnapshotQuery(namespace, s, listing))
  {
    hide Handled, IsListing, Slice, Listed, DecodedCache, CacheRows, AllCached, Consistent, AllDecode, CacheOf;
    var cache, page := CacheOf(s.tables, namespace), s.phase.page;
    if Wrap32(PAGE_SIZE * page) >= 0 {
      WrapPositive(page);
      var offset := PAGE_SIZE * page;
      var rows := Slice(listing, offset);
      NothingListed(decode, cache);
      if page == 0 {
        assert listing[..offset] == [];
        SliceCached(cache, listing, offset);
      } else {
        ListingSize(cache, listing);
        ListingSize(cache, s.phase.listing);
        SliceCached(cache, listing, offset);
        assert Take(listing, offset) == listing[..offset];
        assert Take(s.phase.listing, offset) == s.phase.listing[..offset];
        ListedSame(cache, s.phase.listing[..offset], listing[..offset]);
      }
      SnapshotSent(decode, cache, listing, offset, s.sent);
      ListedAll(cache, listing);
      if |rows| < PAGE_SIZE {
        assert listing[..offset + |rows|] == listing;
      }
    }
  }

  lemma MaxInLine(decode: Decoder, namespace: string, s: System)
    requires Invariant(decode, namespace, s) && s.phase.ReadMax?
    ensures InLine(decode, namespace, AfterMaxQuery(namespace, s))
    ensures Handled(decode, AfterMaxQuery(namespace, s).sent) == DecodedCache(decode, CacheOf(s.tables, namespace))
  {
    var s' := AfterMaxQuery(namespace, s);
    HandledOne(decode, s.sent, EndOfList);
    PoliciesOfLog(decode, s.tables, s.clock, namespace);
    if s'.phase.Tailing? {
      MaxBounds(s.tables, namespace, s'.phase.cursor);
      UpToAll(s.tables, namespace, s'.phase.cursor);
    }
  }

  // ----- the tail -----

  /** What the cursor has passed after a page is what it had passed before, then the page. */
  lemma UpToPage(t: Tables, namespace: string, cursor: Key)
    ensures
      var rows := NextEvents(t, namespace, cursor);
      rows != [] ==> UpTo(t, namespace, rows[|rows| - 1]) == UpTo(t, namespace, cursor) + rows
  {
    var rows := NextEvents(t, namespace, cursor);
    if rows != [] {
      KeyOrder();
      var ks := Above(t, namespace, cursor);
      var last := rows[|rows| - 1];
      var low := UpTo(t, namespace, cursor);
      assert last == ks[|rows| - 1] && ks[|rows| - 1] in ks;
      assert Increasing(KeyLess, low + rows) by {
        forall i, j | 0 <= i < j < |low + rows|
          ensures KeyLess((low + rows)[i], (low + rows)[j])
        {
          if i < |low| <= j {
            assert low[i] in low;
            assert rows[j - |low|] == ks[j - |low|] && ks[j - |low|] in ks;
          }
        }
      }
      forall k: Key
        ensures k in Elements(low + rows) <==> k in Elements(UpTo(t, namespace, last))
      {
        if Logged(t, namespace, k) && KeyLess(cursor, k) {
          TakenUpTo(t, namespace, cursor, k);
        }
        assert k in rows ==> k in ks;
      }
      AscendingUnique(KeyLess, low + rows, UpTo(t, namespace, last));
    }
  }

  /** A stretch of events replays as its first part, then the rest. */
  lemma {:induction false} ReplayStretch(decode: Decoder, t: Tables, namespace: string, m: Policies, ks: seq<Key>,
      n: nat)
    requires AllLogged(t, namespace, ks) && n <= |ks|
    ensures AllLogged(t, namespace, ks[..n]) && AllLogged(t, namespace, ks[n..])
    ensures Replay(m, PolicyChanges(decode, t, namespace, ks)) ==
            Replay(Replay(m, PolicyChanges(decode, t, namespace, ks[..n])),
                PolicyChanges(decode, t, namespace, ks[n..]))
  {
    if n == |ks| {
      assert ks[..n] == ks && ks[n..] == [];
    } else {
      var init, k := ks[..|ks| - 1], ks[|ks| - 1];
      var change := PolicyChange(decode, t, namespace, k);
      assert init[..n] == ks[..n] && init[n..] == ks[n..][..|ks[n..]| - 1] && ks[n..][|ks[n..]| - 1] == k;
      ReplayStretch(decode, t, namespace, m, init, n);
      ReplayAppend(m, PolicyChanges(decode, t, namespace, init), change);
      ReplayAppend(Replay(m, PolicyChanges(decode, t, namespace, ks[..n])),
          PolicyChanges(decode, t, namespace, init[n..]), change);
      hide Replay, PolicyChange, Logged;
    }
  }

  /** What the stream amounts to after one more page of events. */
  lemma PageSent(decode: Decoder, t: Tables, namespace: string, cursor: Key, sent: seq<Response>)
    requires AllLogged(t, namespace, NextEvents(t, namespace, cursor)) && NextEvents(t, namespace, cursor) != []
    requires MixedEndsSet(PolicyChanges(decode, t, namespace, NextEvents(t, namespace, cursor)))
    requires Handled(decode, sent) == Replay(map[], PolicyChanges(decode, t, namespace, UpTo(t, namespace, cursor)))
    ensures
      var rows := NextEvents(t, namespace, cursor);
      Handled(decode, sent + [PageOf(t, namespace, rows)]) ==
      Replay(map[], PolicyChanges(decode, t, namespace, UpTo(t, namespace, rows[|rows| - 1])))
  {
    hide Handled, Replay, MixedEndsSet, AfterPage, RowsWith, Logged, PolicyChanges, NextEvents;
    var rows, passed := NextEvents(t, namespace, cursor), UpTo(t, namespace, cursor);
    HandledOne(decode, sent, PageOf(t, namespace, rows));
    UpToPage(t, namespace, cursor);
    GatewayBatchExact(decode, t, namespace, rows, Handled(decode, sent));
    assert (passed + rows)[..|passed|] == passed && (passed + rows)[|passed|..] == rows;
    ReplayStretch(decode, t, namespace, map[], passed + rows, |passed|);
  }

  lemma QueryInLine(decode: Decoder, parse: Parser, namespace: string, s: System)
    requires Invariant(decode, namespace, s) && s.phase.Tailing?
    requires Good(decode, parse, namespace, s, EventsQuery)
    ensures InLine(decode, namespace, AfterEventsQuery(namespace, s))
  {
    hide Handled, Replay, MixedEndsSet, AfterPage, RowsWith, Logged, PolicyChanges, Consistent, AllDecode, NextEvents,
        UpTo, PageOf;
    var rows := NextEvents(s.tables, namespace, s.phase.cursor);
    if rows != [] {
      var sent := s.sent + [PageOf(s.tables, namespace, rows)];
      PageSent(decode, s.tables, namespace, s.phase.cursor, s.sent);
      assert sent + [] == sent;
      HandledOne(decode, sent, EndOfList);
    } else {
      assert s.sent + [] + [EndOfList] == s.sent + [EndOfList];
      HandledOne(decode, s.sent, EndOfList);
    }
  }

  // ----- snapshot plus tail, as rows -----

  /** `t'` is a later state of the store, and everything logged since is above the cursor. */
  ghost predicate LaterAbove(t: Tables, t': Tables, namespace: string, cursor: Key) {
    && (forall k :: k in t.events ==> k in t'.events && t'.events[k] == t.events[k])
    && (forall k :: Logged(t', namespace, k) && !Logged(t, namespace, k) ==> KeyLess(cursor, k))
  }

  lemma ChangesAtLater(t: Tables, t': Tables, namespace: string, cursor: Key, ks: seq<Key>)
    requires LaterAbove(t, t', namespace, cursor) && AllLogged(t, namespace, ks)
    ensures AllLogged(t', namespace, ks) && ChangesAt(t', namespace, ks) == ChangesAt(t, namespace, ks)
  {
    forall k | k in ks
      ensures Logged(t', namespace, k) && ChangeAt(t', namespace, k) == ChangeAt(t, namespace, k)
    {
      assert Logged(t, namespace, k);
    }
  }

  lemma ChangesAtAppend(t: Tables, namespace: string, a: seq<Key>, b: seq<Key>)
    requires AllLogged(t, namespace, a) && AllLogged(t, namespace, b)
    ensures AllLogged(t, namespace, a + b)
    ensures ChangesAt(t, namespace, a + b) == ChangesAt(t, namespace, a) + ChangesAt(t, namespace, b)
  {
  }

  /** The cursor that a snapshot ends with bounds every logged event, and replaying what is later logged
      above it on top of the snapshot gives the later cache. */
  lemma SnapshotPlusTail(t: Tables, clock: int, t': Tables, clock': int, namespace: string, cursor: Key)
    requires Consistent(t, clock) && Consistent(t', clock')
    requires MaxKey(t, namespace) == Some(cursor)
    requires LaterAbove(t, t', namespace, cursor)
    ensures forall k :: Logged(t, namespace, k) ==> !KeyLess(cursor, k)
    ensures Replay(CacheOf(t, namespace), ChangesAt(t', namespace, Above(t', namespace, cursor))) ==
            CacheOf(t', namespace)
  {
    KeyOrder();
    KeysOfLogged(t, namespace);
    KeysOfLogged(t', namespace);
    var low, high, all := LogOf(t, namespace), Above(t', namespace, cursor), LogOf(t', namespace);
    MaxBounds(t, namespace, cursor);
    ChangesAtLater(t, t', namespace, cursor, low);
    forall i, j | 0 <= i < j < |low + high|
      ensures KeyLess((low + high)[i], (low + high)[j])
    {
      if i < |low| <= j {
        assert low[i] in low && high[j - |low|] in high;
      }
    }
    forall k: Key
      ensures k in Elements(low + high) <==> k in Elements(all)
    {
      assert k in low ==> Logged(t', namespace, k);
    }
    AscendingUnique(KeyLess, low + high, all);
    ChangesAtAppend(t', namespace, low, high);
    ReplayAppend(map[], ChangesAt(t', namespace, low), ChangesAt(t', namespace, high));
    LogIsCache(t, clock, namespace);
    LogIsCache(t', clock', namespace);
  }

  // ----- commits -----

  /** The same events describe the same changes after a commit. */
  lemma {:induction false} PolicyChangesKept(decode: Decoder, parse: Parser, t: Tables, op: Op, namespace: string,
      ks: seq<Key>)
    requires AllLogged(t, namespace, ks)
    ensures AllLogged(Exec(parse, t, op), namespace, ks)
    ensures PolicyChanges(decode, Exec(parse, t, op), namespace, ks) == PolicyChanges(decode, t, namespace, ks)
  {
    ExecOnlyAdds(parse, t, op);
    if ks != [] {
      var k := ks[|ks| - 1];
      assert Logged(t, namespace, k) && EventOf(Exec(parse, t, op), namespace, k) == EventOf(t, namespace, k);
      PolicyChangesKept(decode, parse, t, op, namespace, ks[..|ks| - 1]);
    }
  }

  lemma CommitInLine(decode: Decoder, parse: Parser, namespace: string, s: System, op: Op)
    requires Invariant(decode, namespace, s)
    requires Good(decode, parse, namespace, s, Commit(op))
    ensures InLine(decode, namespace, AfterCommit(parse, namespace, s, op))
  {
    if s.phase.Tailing? {
      var t, cursor := Exec(parse, s.tables, op), s.phase.cursor;
      var a, b := UpTo(s.tables, namespace, cursor), UpTo(t, namespace, cursor);
      PolicyChangesKept(decode, parse, s.tables, op, namespace, a);
      KeyOrder();
      KeysOfLogged(s.tables, namespace);
      KeysOfLogged(t, namespace);
      forall k: Key
        ensures k in Elements(a) <==> k in Elements(b)
      {
        assert k in KeysOf(t, namespace) && k !in KeysOf(s.tables, namespace) ==> KeyLess(cursor, k);
        assert k in a ==> Logged(t, namespace, k);
      }
      AscendingUnique(KeyLess, a, b);
    }
  }

  // ----- the theorem -----

  lemma {:induction false} AlwaysInLine(decode: Decoder, parse: Parser, namespace: string, steps: seq<Step>)
    requires GoodRun(decode, parse, namespace, steps)
    ensures Invariant(decode, namespace, After(parse, namespace, steps))
  {
    if steps != [] {
      var s, step := After(parse, namespace, steps[..|steps| - 1]), steps[|steps| - 1];
      AlwaysInLine(decode, parse, namespace, steps[..|steps| - 1]);
      StepKeepsStore(parse, namespace, s, step);
      if Enabled(namespace, s, step) {
        match step
        case Commit(op) => CommitInLine(decode, parse, namespace, s, op);
        case SnapshotQuery(listing) => SnapshotInLine(decode, namespace, s, listing);
        case MaxQuery => MaxInLine(decode, namespace, s);
        case EventsQuery => QueryInLine(decode, parse, namespace, s);
      }
    }
  }

  /** The last step sent the end of a list. */
  ghost predicate ListEnds(parse: Parser, namespace: string, steps: seq<Step>) {
    && steps != []
    && var s, s' := After(parse, namespace, steps[..|steps| - 1]), After(parse, namespace, steps);
       s'.sent != s.sent && s'.sent[|s'.sent| - 1] == EndOfList
  }

  /** End to end: each time the end of a list is handled, the gateway's active policies are the decoded
      cache as it was at the query that ended the list. */
  lemma EndOfListInLine(decode: Decoder, parse: Parser, namespace: string, steps: seq<Step>)
    requires GoodRun(decode, parse, namespace, steps)
    requires ListEnds(parse, namespace, steps)
    ensures
      var s := After(parse, namespace, steps);
      Handled(decode, s.sent) == DecodedCache(decode, CacheOf(s.tables, namespace))
  {
    var s, step := After(parse, namespace, steps[..|steps| - 1]), steps[|steps| - 1];
    var s' := After(parse, namespace, steps);
    AlwaysInLine(decode, parse, namespace, steps[..|steps| - 1]);
    AlwaysInLine(decode, parse, namespace, steps);
    if step.MaxQuery? {
      MaxInLine(decode, namespace, s);
    } else {
      assert step.EventsQuery? && s.phase.Tailing?;
      forall k | Logged(s'.tables, namespace, k)
        ensures !KeyLess(s'.phase.cursor, k)
      {
        if KeyLess(s.phase.cursor, k) {
          TakenUpTo(s.tables, namespace, s.phase.cursor, k);
          assert k in Above(s.tables, namespace, s.phase.cursor);
        } else {
          TailAlwaysExact(parse, namespace, steps[..|steps| - 1]);
          PathExtends(namespace, s);
        }
      }
      UpToAll(s'.tables, namespace, s'.phase.cursor);
      PoliciesOfLog(decode, s'.tables, s'.clock, namespace);
    }
  }
}
