/**
 The watch protocol as a state machine: store transactions and the watcher's queries in any
 interleaving.  A step that cannot be taken in a state leaves the state as it is.
 */
module WatchProtocol {
  import opened Wrappers
  import opened Ordering
  import opened ResourceStore
  import opened Watch

  /** Where the watcher is: about to query a snapshot page (with the listing the previous page was cut
      from), about to read the greatest event key, tailing the log from a cursor, or ended by an error. */
  datatype Phase = Paging(page: nat, listing: seq<Uuid>) | ReadMax | Tailing(cursor: Key) | Failed

  /** What is observed of the tail: the cursor it started from, the keys of the events sent, in order,
      and where the cursor stood when each later event committed. */
  datatype Tail = Tail(start: Key, keys: seq<Key>, cursorAt: map<Key, Key>)

  datatype System = System(tables: Tables, clock: int, phase: Phase, sent: seq<Response>, tail: Tail)

  datatype Step = Commit(op: Op) | SnapshotQuery(listing: seq<Uuid>) | MaxQuery | EventsQuery

  const Start := System(EmptyTables, 0, Paging(0, []), [], Tail(Key(0, 0), [], map[]))

  ghost predicate Enabled(namespace: string, s: System, step: Step) {
    match step
    case Commit(op) => s.clock <= op.now
    case SnapshotQuery(listing) => s.phase.Paging? && IsListing(CacheOf(s.tables, namespace), listing)
    case MaxQuery => s.phase.ReadMax?
    case EventsQuery => s.phase.Tailing?
  }

  /** Committing a transaction; while the watcher tails, the events it adds are noted with the cursor. */
  ghost function AfterCommit(parse: Parser, namespace: string, s: System, op: Op): System {
    var t := Exec(parse, s.tables, op);
    var s' := s.(tables := t, clock := op.now);
    if s.phase.Tailing? then
      var added := KeysOf(t, namespace) - KeysOf(s.tables, namespace);
      s'.(tail := s.tail.(cursorAt := s.tail.cursorAt + map k | k in added :: s.phase.cursor))
    else s'
  }

  ghost function AfterSnapshotQuery(namespace: string, s: System, listing: seq<Uuid>): System
    requires s.phase.Paging? && IsListing(CacheOf(s.tables, namespace), listing)
  {
    var offset := Wrap32(PAGE_SIZE * s.phase.page);
    if offset < 0 then s.(phase := Failed)
    else
      var cache := CacheOf(s.tables, namespace);
      var rows := Slice(listing, offset);
      SliceInListing(cache, listing, offset);
      s.(sent := if rows == [] then s.sent else s.sent + [Page(CacheRows(cache, rows), [])],
         phase := if |rows| < PAGE_SIZE then ReadMax else Paging(s.phase.page + 1, listing))
  }

  lemma SliceInListing(cache: map<Uuid, CacheRow>, listing: seq<Uuid>, offset: nat)
    requires IsListing(cache, listing)
    ensures AllCached(cache, Slice(listing, offset))
  {
    if offset <= |listing| {
      SliceCached(cache, listing, offset);
    }
  }

  ghost function AfterMaxQuery(namespace: string, s: System): System {
    match MaxKey(s.tables, namespace)
    case None => s.(phase := Paging(0, []), sent := s.sent + [EndOfList])
    case Some(k) => s.(phase := Tailing(k), sent := s.sent + [EndOfList], tail := Tail(k, [], map[]))
  }

  ghost function AfterEventsQuery(namespace: string, s: System): System
    requires s.phase.Tailing?
  {
    var rows := NextEvents(s.tables, namespace, s.phase.cursor);
    NextEventsLogged(s.tables, namespace, s.phase.cursor);
    s.(sent := s.sent + (if rows == [] then [] else [PageOf(s.tables, namespace, rows)])
                      + (if |rows| < PAGE_SIZE then [EndOfList] else []),
       phase := Tailing(if rows == [] then s.phase.cursor else rows[|rows| - 1]),
       tail := s.tail.(keys := s.tail.keys + rows))
  }

  lemma NextEventsLogged(t: Tables, namespace: string, cursor: Key)
    ensures AllLogged(t, namespace, NextEvents(t, namespace, cursor))
  {
    var ks := Above(t, namespace, cursor);
    assert forall k :: k in NextEvents(t, namespace, cursor) ==> k in ks;
  }

  ghost function Next(parse: Parser, namespace: string, s: System, step: Step): System {
    if !Enabled(namespace, s, step) then s
    else
      match step
      case Commit(op) => AfterCommit(parse, namespace, s, op)
      case SnapshotQuery(listing) => AfterSnapshotQuery(namespace, s, listing)
      case MaxQuery => AfterMaxQuery(namespace, s)
      case EventsQuery => AfterEventsQuery(namespace, s)
  }

  ghost function After(parse: Parser, namespace: string, steps: seq<Step>): System {
    if steps == [] then Start
    else Next(parse, namespace, After(parse, namespace, steps[..|steps| - 1]), steps[|steps| - 1])
  }

  // ----- the store under the protocol -----

  /** Transactions only add events. */
  lemma {:induction false} DropOnlyAdds(parse: Parser, t: Tables, now: int, namespace: string, ids: seq<string>)
    ensures DropAll(parse, t, now, namespace, ids).Success? ==>
              forall k :: k in t.events ==>
                            k in DropAll(parse, t, now, namespace, ids).value.events
                            && DropAll(parse, t, now, namespace, ids).value.events[k] == t.events[k]
  {
    if ids != [] {
      DropOnlyAdds(parse, t, now, namespace, ids[..|ids| - 1]);
    }
  }

  lemma ExecOnlyAdds(parse: Parser, t: Tables, op: Op)
    ensures forall k :: k in t.events ==> k in Exec(parse, t, op).events && Exec(parse, t, op).events[k] == t.events[k]
  {
    if op.DropOp? {
      DropOnlyAdds(parse, t, op.now, op.namespace, op.ids);
    }
  }

  lemma StepKeepsStore(parse: Parser, namespace: string, s: System, step: Step)
    requires Consistent(s.tables, s.clock)
    ensures Consistent(Next(parse, namespace, s, step).tables, Next(parse, namespace, s, step).clock)
  {
    if Enabled(namespace, s, step) && step.Commit? {
      ExecKeeps(parse, s.tables, s.clock, step.op);
    }
  }

  // ----- exactness -----

  /** The cursor's path: where the tail started, then every event sent. */
  ghost function Path(s: System): seq<Key> {
    [s.tail.start] + s.tail.keys
  }

  ghost predicate Late(s: System, k: Key) {
    k in s.tail.cursorAt && !KeyLess(s.tail.cursorAt[k], k)
  }

  /** What every step of a tail keeps: the path climbs strictly and ends at the cursor, and each logged
      event above the start is sent, or still above the cursor, or was late when it committed. */
  ghost predicate TailExact(namespace: string, s: System) {
    s.phase.Tailing? ==>
      && Increasing(KeyLess, Path(s))
      && s.phase.cursor == Path(s)[|s.tail.keys|]
      && (forall k :: k in s.tail.keys ==> Logged(s.tables, namespace, k))
      && (forall k :: k in s.tail.cursorAt ==>
           Logged(s.tables, namespace, k) && !KeyLess(s.phase.cursor, s.tail.cursorAt[k]))
      && (forall k :: Logged(s.tables, namespace, k) && KeyLess(s.tail.start, k) ==> k in s.tail.cursorAt)
      && (forall k :: Logged(s.tables, namespace, k) && KeyLess(s.tail.start, k) && !KeyLess(s.phase.cursor, k) ==>
            (k in s.tail.keys <==> !Late(s, k)))
  }

  lemma CommitKeepsTail(parse: Parser, namespace: string, s: System, op: Op)
    requires TailExact(namespace, s) && s.phase.Tailing?
    ensures TailExact(namespace, AfterCommit(parse, namespace, s, op))
  {
    var s' := AfterCommit(parse, namespace, s, op);
    ExecOnlyAdds(parse, s.tables, op);
    KeysOfLogged(s.tables, namespace);
    KeysOfLogged(s'.tables, namespace);
    assert Path(s') == Path(s);
    assert forall k :: Logged(s.tables, namespace, k) ==> Logged(s'.tables, namespace, k);
    forall k: Key | k in s'.tail.cursorAt
      ensures Logged(s'.tables, namespace, k) && !KeyLess(s'.phase.cursor, s'.tail.cursorAt[k])
    {
    }
    forall k | Logged(s'.tables, namespace, k) && KeyLess(s'.tail.start, k)
      ensures k in s'.tail.cursorAt
      ensures !KeyLess(s'.phase.cursor, k) ==> (k in s'.tail.keys <==> !Late(s', k))
    {
      if Logged(s.tables, namespace, k) {
        assert k !in KeysOf(s'.tables, namespace) - KeysOf(s.tables, namespace);
        assert s'.tail.cursorAt[k] == s.tail.cursorAt[k];
      } else {
        assert k in KeysOf(s'.tables, namespace) - KeysOf(s.tables, namespace);
        assert s'.tail.cursorAt[k] == s.phase.cursor;
      }
    }
  }

  /** The greatest key bounds every logged event. */
  lemma MaxBounds(t: Tables, namespace: string, max: Key)
    requires MaxKey(t, namespace) == Some(max)
    ensures forall k :: Logged(t, namespace, k) ==> !KeyLess(max, k)
  {
    var ks := LogOf(t, namespace);
    forall k | Logged(t, namespace, k)
      ensures !KeyLess(max, k)
    {
      var i :| 0 <= i < |ks| && ks[i] == k;
      assert i < |ks| - 1 ==> KeyLess(ks[i], ks[|ks| - 1]);
    }
  }

  lemma MaxStartsTail(namespace: string, s: System)
    ensures TailExact(namespace, AfterMaxQuery(namespace, s))
  {
    if MaxKey(s.tables, namespace).Some? {
      MaxBounds(s.tables, namespace, MaxKey(s.tables, namespace).value);
    }
  }

  /** The first `n` events above a key are the ones up to the `n`-th. */
  lemma TakenUpTo(t: Tables, namespace: string, cursor: Key, k: Key)
    requires Logged(t, namespace, k) && KeyLess(cursor, k)
    ensures
      var rows := NextEvents(t, namespace, cursor);
      rows != [] && (k in rows <==> !KeyLess(rows[|rows| - 1], k))
  {
    var ks := Above(t, namespace, cursor);
    var rows := NextEvents(t, namespace, cursor);
    assert k in ks;
    var i :| 0 <= i < |ks| && ks[i] == k;
    var n := |rows|;
    assert n > 0;
    if i < n {
      assert rows[i] == k;
      assert i < n - 1 ==> KeyLess(ks[i], ks[n - 1]);
    } else {
      assert KeyLess(ks[n - 1], ks[i]);
      assert forall j :: 0 <= j < n ==> rows[j] == ks[j] && KeyLess(ks[j], ks[i]);
    }
  }

  lemma PathExtends(namespace: string, s: System)
    requires TailExact(namespace, s) && s.phase.Tailing?
    ensures
      var s' := AfterEventsQuery(namespace, s);
      && Increasing(KeyLess, Path(s'))
      && s'.phase.cursor == Path(s')[|s'.tail.keys|]
      && !KeyLess(s'.phase.cursor, s.phase.cursor)
  {
    var s' := AfterEventsQuery(namespace, s);
    var rows := NextEvents(s.tables, namespace, s.phase.cursor);
    var ks := Above(s.tables, namespace, s.phase.cursor);
    var path := Path(s);
    assert Path(s') == path + rows;
    forall i, j | 0 <= i < j < |path + rows|
      ensures KeyLess((path + rows)[i], (path + rows)[j])
    {
      if i < |path| <= j {
        assert rows[j - |path|] == ks[j - |path|];
        assert ks[j - |path|] in ks;
        assert i < |path| - 1 ==> KeyLess(path[i], path[|path| - 1]);
      }
    }
    assert rows != [] ==> ks[|rows| - 1] in ks;
  }

  lemma QueryKeepsTail(namespace: string, s: System)
    requires TailExact(namespace, s) && s.phase.Tailing?
    ensures TailExact(namespace, AfterEventsQuery(namespace, s))
  {
    var s' := AfterEventsQuery(namespace, s);
    var cursor := s.phase.cursor;
    var rows := NextEvents(s.tables, namespace, cursor);
    NextEventsLogged(s.tables, namespace, cursor);
    PathExtends(namespace, s);
    forall k | Logged(s'.tables, namespace, k) && KeyLess(s'.tail.start, k) && !KeyLess(s'.phase.cursor, k)
      ensures k in s'.tail.keys <==> !Late(s', k)
    {
      assert k in s'.tail.keys <==> k in s.tail.keys || k in rows;
      assert k in rows ==> k in Above(s.tables, namespace, cursor);
      if KeyLess(cursor, k) {
        TakenUpTo(s.tables, namespace, cursor, k);
      }
    }
  }

  lemma {:induction false} TailAlwaysExact(parse: Parser, namespace: string, steps: seq<Step>)
    ensures TailExact(namespace, After(parse, namespace, steps))
  {
    if steps != [] {
      var s := After(parse, namespace, steps[..|steps| - 1]);
      var step := steps[|steps| - 1];
      TailAlwaysExact(parse, namespace, steps[..|steps| - 1]);
      if Enabled(namespace, s, step) {
        match step
        case Commit(op) => if s.phase.Tailing? { CommitKeepsTail(parse, namespace, s, op); }
        case SnapshotQuery(_) =>
        case MaxQuery => MaxStartsTail(namespace, s);
        case EventsQuery => QueryKeepsTail(namespace, s);
      }
    }
  }

  /** The last step was a query of the tail that found a short page: a poll has just ended. */
  ghost predicate PollEnds(parse: Parser, namespace: string, steps: seq<Step>) {
    && steps != [] && steps[|steps| - 1].EventsQuery?
    && var s := After(parse, namespace, steps[..|steps| - 1]);
       s.phase.Tailing? && |NextEvents(s.tables, namespace, s.phase.cursor)| < PAGE_SIZE
  }

  /** Watch exactness, over every interleaving: the sent events climb strictly from the start of the tail,
      so none is sent twice, and when a poll ends an event above the start has been sent exactly when it
      was above the cursor at the moment it committed. */
  lemma WatchExact(parse: Parser, namespace: string, steps: seq<Step>)
    ensures
      var s := After(parse, namespace, steps);
      s.phase.Tailing? ==> Increasing(KeyLess, [s.tail.start] + s.tail.keys)
    ensures
      var s := After(parse, namespace, steps);
      PollEnds(parse, namespace, steps) ==>
        forall k :: Logged(s.tables, namespace, k) && KeyLess(s.tail.start, k) ==>
                      && k in s.tail.cursorAt
                      && (k in s.tail.keys <==> KeyLess(s.tail.cursorAt[k], k))
  {
    var s := After(parse, namespace, steps);
    TailAlwaysExact(parse, namespace, steps);
    if PollEnds(parse, namespace, steps) {
      var before := After(parse, namespace, steps[..|steps| - 1]);
      forall k | Logged(s.tables, namespace, k) && KeyLess(s.tail.start, k)
        ensures !KeyLess(s.phase.cursor, k)
      {
        if KeyLess(before.phase.cursor, k) {
          TakenUpTo(before.tables, namespace, before.phase.cursor, k);
          assert k in Above(before.tables, namespace, before.phase.cursor);
        } else {
          TailAlwaysExact(parse, namespace, steps[..|steps| - 1]);
          PathExtends(namespace, before);
        }
      }
    }
  }

  /** Late commits happen even under a clock that never goes back: a put within the cursor's own second,
      of a resource whose id is smaller than the cursor's, is logged below the cursor. */
  lemma SameSecondCommitIsLate(parse: Parser, namespace: string, s: System, id: Uuid, res: Resource)
    requires s.phase.Tailing? && s.clock <= s.phase.cursor.version && id < s.phase.cursor.id
    requires res.namespace == namespace && parse(res.id) == Some(id)
    requires CacheKey(namespace, id) !in s.tables.cache
    requires !Logged(s.tables, namespace, Key(s.phase.cursor.version, id))
    ensures
      var s' := Next(parse, namespace, s, Commit(PutOp(s.phase.cursor.version, res)));
      Logged(s'.tables, namespace, Key(s.phase.cursor.version, id)) && Late(s', Key(s.phase.cursor.version, id))
  {
    var s' := Next(parse, namespace, s, Commit(PutOp(s.phase.cursor.version, res)));
    KeysOfLogged(s.tables, namespace);
    KeysOfLogged(s'.tables, namespace);
    var k := Key(s.phase.cursor.version, id);
    assert k in KeysOf(s'.tables, namespace) - KeysOf(s.tables, namespace);
  }

  /** `s'` is a later state of the same tail: it starts where it started, its cursor is not behind, and what was
      noted of a commit stands. */
  ghost predicate LaterTail(s: System, s': System) {
    && s.phase.Tailing? && s'.phase.Tailing? && s'.tail.start == s.tail.start
    && forall k :: k in s.tail.cursorAt ==> k in s'.tail.cursorAt && s'.tail.cursorAt[k] == s.tail.cursorAt[k]
  }

  lemma TailGoesOn(parse: Parser, namespace: string, s: System, step: Step)
    requires TailExact(namespace, s) && s.phase.Tailing?
    ensures LaterTail(s, Next(parse, namespace, s, step))
  {
    if step.Commit? {
      KeysOfLogged(s.tables, namespace);
    }
  }

  lemma {:induction false} TailStays(parse: Parser, namespace: string, steps: seq<Step>, more: seq<Step>)
    requires After(parse, namespace, steps).phase.Tailing?
    ensures LaterTail(After(parse, namespace, steps), After(parse, namespace, steps + more))
  {
    if more == [] {
      assert steps + more == steps;
    } else {
      var init := more[..|more| - 1];
      assert (steps + more)[..|steps + more| - 1] == steps + init;
      TailStays(parse, namespace, steps, init);
      TailAlwaysExact(parse, namespace, steps + init);
      hide TailExact, Next;
      TailGoesOn(parse, namespace, After(parse, namespace, steps + init), more[|more| - 1]);
    }
  }

  /** An event that was late when it committed is never sent, however the run goes on. */
  lemma LateNeverSent(parse: Parser, namespace: string, steps: seq<Step>, k: Key, more: seq<Step>)
    requires After(parse, namespace, steps).phase.Tailing? && Late(After(parse, namespace, steps), k)
    ensures After(parse, namespace, steps + more).phase.Tailing?
    ensures k !in After(parse, namespace, steps + more).tail.keys
  {
    TailStays(parse, namespace, steps, more);
    TailAlwaysExact(parse, namespace, steps + more);
    SentAboveStart(namespace, After(parse, namespace, steps + more));
  }

  lemma SentAboveStart(namespace: string, s: System)
    requires s.phase.Tailing? && TailExact(namespace, s)
    ensures forall k :: k in s.tail.keys ==> KeyLess(s.tail.start, k)
  {
    forall k | k in s.tail.keys
      ensures KeyLess(s.tail.start, k)
    {
      var i :| 0 <= i < |s.tail.keys| && s.tail.keys[i] == k;
      assert KeyLess(Path(s)[0], Path(s)[i + 1]);
    }
  }

  // ----- a run that loses an event -----

  /** One resource is put, the watcher takes its snapshot of it, and within the same second a resource with a
      smaller id is put. */
  function SameSecondRun(now: int, first: Resource, id: Uuid, second: Resource): seq<Step> {
    [Commit(PutOp(now, first)), SnapshotQuery([id]), MaxQuery, Commit(PutOp(now, second))]
  }

  lemma AfterMore(parse: Parser, namespace: string, steps: seq<Step>, step: Step)
    ensures After(parse, namespace, steps + [step]) == Next(parse, namespace, After(parse, namespace, steps), step)
  {
    assert (steps + [step])[..|steps|] == steps;
  }

  /** The state after the first put. */
  ghost function FirstPut(now: int, first: Resource, id: Uuid): System {
    var content := Content(first.name, first.spec, first);
    Start.(clock := now,
           tables := Tables(map[CacheKey(first.namespace, id) := CacheRow(now, content)],
                            map[EventKey(first.namespace, now, id) := EventRow(Active, content)]))
  }

  lemma AfterFirstPut(parse: Parser, now: int, first: Resource, id: Uuid)
    requires 0 <= now && parse(first.id) == Some(id)
    ensures Next(parse, first.namespace, Start, Commit(PutOp(now, first))) == FirstPut(now, first, id)
  {
  }

  lemma FirstPutListed(now: int, first: Resource, id: Uuid)
    ensures
      var t := FirstPut(now, first, id).tables;
      && IsListing(CacheOf(t, first.namespace), [id])
      && MaxKey(t, first.namespace) == Some(Key(now, id))
  {
    var s := FirstPut(now, first, id);
    var cache := CacheOf(s.tables, first.namespace);
    CacheOfAt(s.tables, first.namespace, id);
    forall other: Uuid
      ensures other in cache <==> other == id
    {
      CacheOfAt(s.tables, first.namespace, other);
    }
    assert Elements([id]) == cache.Keys;
    KeyOrder();
    KeysOfLogged(s.tables, first.namespace);
    assert forall k :: Logged(s.tables, first.namespace, k) <==> k == Key(now, id);
    assert Elements([Key(now, id)]) == KeysOf(s.tables, first.namespace);
    AscendingUnique(KeyLess, [Key(now, id)], LogOf(s.tables, first.namespace));
  }

  /** After snapshot and greatest key the watcher tails from the first put's event. */
  lemma TailsFirstPut(parse: Parser, now: int, first: Resource, id: Uuid)
    ensures
      var s := FirstPut(now, first, id);
      var listed := Next(parse, first.namespace, s, SnapshotQuery([id]));
      var s' := Next(parse, first.namespace, listed, MaxQuery);
      s'.phase == Tailing(Key(now, id)) && s'.tables == s.tables && s'.clock == now
  {
    hide IsListing, MaxKey, CacheOf;
    FirstPutListed(now, first, id);
  }

  /** The state in which the second put comes in. */
  ghost function SecondIn(parse: Parser, now: int, first: Resource, id: Uuid): System {
    Next(parse, first.namespace,
         Next(parse, first.namespace, FirstPut(now, first, id), SnapshotQuery([id])), MaxQuery)
  }

  lemma AfterSameSecond(parse: Parser, now: int, first: Resource, id: Uuid, second: Resource)
    requires 0 <= now && parse(first.id) == Some(id)
    ensures After(parse, first.namespace, SameSecondRun(now, first, id, second)) ==
            Next(parse, first.namespace, SecondIn(parse, now, first, id), Commit(PutOp(now, second)))
  {
    var namespace := first.namespace;
    var t0: seq<Step> := [];
    var t1 := t0 + [Commit(PutOp(now, first))];
    var t2 := t1 + [SnapshotQuery([id])];
    var t3 := t2 + [MaxQuery];
    assert After(parse, namespace, t0) == Start;
    AfterFirstPut(parse, now, first, id);
    hide After, Next, FirstPut;
    AfterMore(parse, namespace, t0, Commit(PutOp(now, first)));
    AfterMore(parse, namespace, t1, SnapshotQuery([id]));
    AfterMore(parse, namespace, t2, MaxQuery);
    AfterMore(parse, namespace, t3, Commit(PutOp(now, second)));
    assert t3 + [Commit(PutOp(now, second))] == SameSecondRun(now, first, id, second);
  }

  /** What the second put finds, and that its key is free. */
  lemma SecondFree(parse: Parser, now: int, first: Resource, id: Uuid, smaller: Uuid)
    requires smaller < id
    ensures
      var s := SecondIn(parse, now, first, id);
      && s.phase == Tailing(Key(now, id)) && s.clock == now
      && CacheKey(first.namespace, smaller) !in s.tables.cache
      && !Logged(s.tables, first.namespace, Key(now, smaller))
  {
    TailsFirstPut(parse, now, first, id);
    hide Next;
  }

  /** A clock that does not go back does not keep events from being lost: in this run the second put is logged
      below the cursor, and no continuation ever sends it. */
  lemma SameSecondNeverSent(parse: Parser, now: int, first: Resource, id: Uuid, second: Resource, smaller: Uuid,
                            more: seq<Step>)
    requires 0 <= now && smaller < id && second.namespace == first.namespace
    requires parse(first.id) == Some(id) && parse(second.id) == Some(smaller)
    ensures
      var steps := SameSecondRun(now, first, id, second);
      var s := After(parse, first.namespace, steps + more);
      && Logged(After(parse, first.namespace, steps).tables, first.namespace, Key(now, smaller))
      && s.phase.Tailing? && Key(now, smaller) !in s.tail.keys
  {
    var steps, s := SameSecondRun(now, first, id, second), SecondIn(parse, now, first, id);
    AfterSameSecond(parse, now, first, id, second);
    SecondFree(parse, now, first, id, smaller);
    assert s.phase == Tailing(Key(now, id));
    assert Next(parse, first.namespace, s, Commit(PutOp(now, second))).phase.Tailing?;
    hide After, Next, SecondIn, SameSecondRun;
    SameSecondCommitIsLate(parse, first.namespace, s, smaller, second);
    LateNeverSent(parse, first.namespace, steps, Key(now, smaller), more);
  }
}
