/**
 The resource store: a cache table with the current rows and an event table with their
 history, written by serial transactions.
 */
module ResourceStore {
  import opened Wrappers
  import opened Changes
  import opened Ordering

  /** A UUID, read as the unsigned number its bytes spell; the database compares it that way. */
  type Uuid = nat

  /** The UUID parser: several spellings may name one id, and some strings name none. */
  type Parser = string -> Option<Uuid>

  datatype Spec = Spec(typeUrl: string, value: seq<bv8>)

  datatype Resource = Resource(namespace: string, id: string, name: string, spec: Spec)

  /** The SHA-256 of the marshalled resource, taken as injective: the hashed resource itself. */
  type Digest = Resource

  datatype Content = Content(name: string, spec: Spec, digest: Digest)

  datatype CacheKey = CacheKey(namespace: string, id: Uuid)

  datatype CacheRow = CacheRow(version: int, content: Content)

  datatype EventKey = EventKey(namespace: string, version: int, id: Uuid)

  datatype Status = Active | Dropped

  datatype EventRow = EventRow(status: Status, content: Content)

  datatype Tables = Tables(cache: map<CacheKey, CacheRow>, events: map<EventKey, EventRow>)

  datatype Error = InvalidId(index: nat) | KeyClash

  datatype Version = Version(digest: Digest, index: int)

  const EmptyTables := Tables(map[], map[])

  // ----- statements -----

  function UpsertCache(t: Tables, ck: CacheKey, row: CacheRow): Tables {
    t.(cache := t.cache[ck := row])
  }

  /** Inserts an event under a primary key; `None` is a key violation, which aborts the transaction. */
  function InsertEvent(t: Tables, k: EventKey, e: EventRow): Option<Tables> {
    if k in t.events then None else Some(t.(events := t.events[k := e]))
  }

  /** Copies the cache row, if there is one, into an ACTIVE event at the row's own version. */
  function InsertActive(t: Tables, ck: CacheKey): Option<Tables> {
    if ck !in t.cache then Some(t)
    else
      var row := t.cache[ck];
      InsertEvent(t, EventKey(ck.namespace, row.version, ck.id), EventRow(Active, row.content))
  }

  /** Copies the cache row, if there is one, into a DROPPED event at the given version. */
  function InsertDropped(t: Tables, ck: CacheKey, version: int): Option<Tables> {
    if ck !in t.cache then Some(t)
    else InsertEvent(t, EventKey(ck.namespace, version, ck.id), EventRow(Dropped, t.cache[ck].content))
  }

  function DeleteCache(t: Tables, ck: CacheKey): Tables {
    t.(cache := t.cache - {ck})
  }

  // ----- transactions -----

  function Put(parse: Parser, t: Tables, now: int, res: Resource): (Tables, Result<Version, Error>) {
    var id := parse(res.id);
    if id.None? then (t, Failure(InvalidId(0)))
    else
      var ck := CacheKey(res.namespace, id.value);
      if ck in t.cache && t.cache[ck].content.digest == res then
        (t, Success(Version(res, t.cache[ck].version)))
      else
        match InsertActive(UpsertCache(t, ck, CacheRow(now, Content(res.name, res.spec, res))), ck)
        case None => (t, Failure(KeyClash))
        case Some(t') => (t', Success(Version(res, now)))
  }

  function DropOne(parse: Parser, t: Tables, now: int, namespace: string, idText: string, index: nat)
    : Result<Tables, Error>
  {
    var id := parse(idText);
    if id.None? then Failure(InvalidId(index))
    else
      var ck := CacheKey(namespace, id.value);
      match InsertDropped(t, ck, now)
      case None => Failure(KeyClash)
      case Some(t') => Success(DeleteCache(t', ck))
  }

  /** The transaction's working tables after the ids of a drop list, in list order. */
  function DropAll(parse: Parser, t: Tables, now: int, namespace: string, ids: seq<string>): Result<Tables, Error> {
    if ids == [] then Success(t)
    else
      match DropAll(parse, t, now, namespace, ids[..|ids| - 1])
      case Failure(e) => Failure(e)
      case Success(t') => DropOne(parse, t', now, namespace, ids[|ids| - 1], |ids| - 1)
  }

  function Drop(parse: Parser, t: Tables, now: int, namespace: string, ids: seq<string>): (Tables, Result<(), Error>) {
    match DropAll(parse, t, now, namespace, ids)
    case Success(t') => (t', Success(()))
    case Failure(e) => (t, Failure(e))
  }

  /** The store as a server object; each method is one committed or rolled back transaction. */
  class Store {
    const parse: Parser
    var cache: map<CacheKey, CacheRow>
    var events: map<EventKey, EventRow>

    ghost function View(): Tables
      reads this
    {
      Tables(cache, events)
    }

    constructor (parse: Parser)
      ensures this.parse == parse && View() == EmptyTables
    {
      this.parse := parse;
      cache, events := map[], map[];
    }

    method PutResource(now: int, res: Resource) returns (r: Result<Version, Error>)
      modifies this
      ensures (View(), r) == Put(parse, old(View()), now, res)
    {
      var id := parse(res.id);
      if id.None? {
        return Failure(InvalidId(0));
      }
      var tx := Tables(cache, events);
      var ck := CacheKey(res.namespace, id.value);
      var versionIndex := now;
      if ck !in tx.cache || tx.cache[ck].content.digest != res {
        tx := UpsertCache(tx, ck, CacheRow(versionIndex, Content(res.name, res.spec, res)));
        var inserted := InsertActive(tx, ck);
        if inserted.None? {
          return Failure(KeyClash);  // the commit of an aborted transaction fails
        }
        tx := inserted.value;
      } else {
        versionIndex := tx.cache[ck].version;
      }
      cache, events := tx.cache, tx.events;
      r := Success(Version(res, versionIndex));
    }

    method DropResources(now: int, namespace: string, ids: seq<string>) returns (r: Result<(), Error>)
      modifies this
      ensures (View(), r) == Drop(parse, old(View()), now, namespace, ids)
    {
      var tx := Tables(cache, events);
      var i := 0;
      while i < |ids|
        invariant 0 <= i <= |ids|
        invariant View() == old(View())
        invariant DropAll(parse, View(), now, namespace, ids[..i]) == Success(tx)
      {
        assert ids[..i + 1][..i] == ids[..i];
        var id := parse(ids[i]);
        if id.None? {
          DropAllFails(parse, View(), now, namespace, ids, i + 1);
          return Failure(InvalidId(i));
        }
        var ck := CacheKey(namespace, id.value);
        var inserted := InsertDropped(tx, ck, now);
        if inserted.None? {
          DropAllFails(parse, View(), now, namespace, ids, i + 1);
          return Failure(KeyClash);
        }
        tx := DeleteCache(inserted.value, ck);
        i := i + 1;
      }
      assert ids[..i] == ids;
      cache, events := tx.cache, tx.events;
      r := Success(());
    }
  }

  lemma {:induction false} DropAllFails(parse: Parser, t: Tables, now: int, namespace: string, ids: seq<string>, i: nat)
    requires i <= |ids|
    requires DropAll(parse, t, now, namespace, ids[..i]).Failure?
    ensures DropAll(parse, t, now, namespace, ids) == DropAll(parse, t, now, namespace, ids[..i])
    decreases |ids| - i
  {
    if i == |ids| {
      assert ids[..i] == ids;
    } else {
      assert ids[..i + 1][..i] == ids[..i];
      DropAllFails(parse, t, now, namespace, ids, i + 1);
    }
  }

  // ----- what one transaction does -----

  /** The cache keys a drop list names. */
  function Named(parse: Parser, namespace: string, ids: seq<string>): set<CacheKey> {
    set i | 0 <= i < |ids| && parse(ids[i]).Some? :: CacheKey(namespace, parse(ids[i]).value)
  }

  /** The events a drop of the rows `cks` logs: one per row that is cached. */
  function DropEvents(t: Tables, now: int, namespace: string, cks: set<CacheKey>): map<EventKey, EventRow> {
    map ck | ck in cks && ck in t.cache && ck.namespace == namespace ::
      EventKey(namespace, now, ck.id) := EventRow(Dropped, t.cache[ck].content)
  }

  ghost predicate Droppable(parse: Parser, t: Tables, now: int, namespace: string, ids: seq<string>) {
    && (forall i :: 0 <= i < |ids| ==> parse(ids[i]).Some?)
    && (forall ck :: ck in Named(parse, namespace, ids) && ck in t.cache ==>
         EventKey(namespace, now, ck.id) !in t.events)
  }

  /** The tables with the rows `cks` of a namespace dropped at once. */
  function WithoutRows(t: Tables, now: int, namespace: string, cks: set<CacheKey>): Tables {
    Tables(t.cache - cks, t.events + DropEvents(t, now, namespace, cks))
  }

  /** One more id, against rows already dropped in the same transaction. */
  lemma DropOneExact(parse: Parser, t: Tables, now: int, namespace: string, cks: set<CacheKey>, idText: string,
      index: nat)
    requires parse(idText).Some?
    ensures
      var ck := CacheKey(namespace, parse(idText).value);
      DropOne(parse, WithoutRows(t, now, namespace, cks), now, namespace, idText, index) ==
      if ck in t.cache && ck !in cks && EventKey(namespace, now, ck.id) in t.events then Failure(KeyClash)
      else Success(WithoutRows(t, now, namespace, cks + {ck}))
  {
    var ck := CacheKey(namespace, parse(idText).value);
    var k := EventKey(namespace, now, ck.id);
    assert t.cache - cks - {ck} == t.cache - (cks + {ck});
    DropEventsExtend(t, now, namespace, cks, ck);
    if ck in t.cache && ck !in cks {
      var before := t.events + DropEvents(t, now, namespace, cks);
      assert t.events + DropEvents(t, now, namespace, cks + {ck}) ==
          before[k := EventRow(Dropped, t.cache[ck].content)];
    }
  }

  lemma DropEventsExtend(t: Tables, now: int, namespace: string, cks: set<CacheKey>, ck: CacheKey)
    requires ck.namespace == namespace
    ensures
      var before, after := DropEvents(t, now, namespace, cks), DropEvents(t, now, namespace, cks + {ck});
      var k := EventKey(namespace, now, ck.id);
      if ck in t.cache && ck !in cks then k !in before && after == before[k := EventRow(Dropped, t.cache[ck].content)]
      else after == before
  {
    DropEventsAt(t, now, namespace, cks);
    DropEventsAt(t, now, namespace, cks + {ck});
  }

  lemma DropEventsAt(t: Tables, now: int, namespace: string, cks: set<CacheKey>)
    ensures forall k :: k in DropEvents(t, now, namespace, cks) <==>
                        k.namespace == namespace && k.version == now && CacheKey(namespace, k.id) in cks &&
                            CacheKey(namespace, k.id) in t.cache
    ensures forall k :: k in DropEvents(t, now, namespace, cks) ==>
                        DropEvents(t, now, namespace, cks)[k] ==
                            EventRow(Dropped, t.cache[CacheKey(namespace, k.id)].content)
  {
  }

  lemma NamedAppend(parse: Parser, namespace: string, ids: seq<string>)
    requires ids != [] && parse(ids[|ids| - 1]).Some?
    ensures Named(parse, namespace, ids) ==
            Named(parse, namespace, ids[..|ids| - 1]) + {CacheKey(namespace, parse(ids[|ids| - 1]).value)}
  {
    var init := ids[..|ids| - 1];
    assert forall i :: 0 <= i < |init| ==> init[i] == ids[i];
  }

  lemma DroppableAppend(parse: Parser, t: Tables, now: int, namespace: string, ids: seq<string>)
    requires ids != []
    ensures
      var init, id := ids[..|ids| - 1], parse(ids[|ids| - 1]);
      Droppable(parse, t, now, namespace, ids) <==>
      && Droppable(parse, t, now, namespace, init)
      && id.Some?
      && var ck := CacheKey(namespace, id.value);
         (ck in t.cache && ck !in Named(parse, namespace, init) ==> EventKey(namespace, now, ck.id) !in t.events)
  {
    var init, id := ids[..|ids| - 1], parse(ids[|ids| - 1]);
    assert forall i :: 0 <= i < |init| ==> init[i] == ids[i];
    if id.Some? {
      NamedAppend(parse, namespace, ids);
    }
  }

  lemma {:induction false} DropAllExact(parse: Parser, t: Tables, now: int, namespace: string, ids: seq<string>)
    ensures DropAll(parse, t, now, namespace, ids).Success? <==> Droppable(parse, t, now, namespace, ids)
    ensures Droppable(parse, t, now, namespace, ids) ==>
              DropAll(parse, t, now, namespace, ids) ==
                  Success(WithoutRows(t, now, namespace, Named(parse, namespace, ids)))
  {
    if ids == [] {
      assert Named(parse, namespace, ids) == {};
      assert WithoutRows(t, now, namespace, {}) == t;
    } else {
      var init, last := ids[..|ids| - 1], ids[|ids| - 1];
      DropAllExact(parse, t, now, namespace, init);
      DroppableAppend(parse, t, now, namespace, ids);
      if parse(last).Some? && Droppable(parse, t, now, namespace, init) {
        NamedAppend(parse, namespace, ids);
        DropOneExact(parse, t, now, namespace, Named(parse, namespace, init), last, |ids| - 1);
      }
    }
  }

  /** Dropping a list, id by id and with repeats, is all or nothing: it succeeds exactly when every
      id parses and no cached one already has an event this second, and then it removes the named rows
      and logs one event for each that was there. */
  lemma DropExact(parse: Parser, t: Tables, now: int, namespace: string, ids: seq<string>)
    ensures Drop(parse, t, now, namespace, ids).1.Success? <==> Droppable(parse, t, now, namespace, ids)
    ensures Drop(parse, t, now, namespace, ids).0 ==
            if Droppable(parse, t, now, namespace, ids)
            then WithoutRows(t, now, namespace, Named(parse, namespace, ids)) else t
  {
    DropAllExact(parse, t, now, namespace, ids);
  }

  /** A successful put is read back, and putting the same resource again changes nothing, whatever the time. */
  lemma PutReadBack(parse: Parser, t: Tables, now: int, res: Resource, later: int)
    requires Put(parse, t, now, res).1.Success?
    ensures
      var (t', r) := Put(parse, t, now, res);
      var ck := CacheKey(res.namespace, parse(res.id).value);
      && ck in t'.cache
      && t'.cache[ck].content.digest == res
      && r.value == Version(res, t'.cache[ck].version)
      && Put(parse, t', later, res) == (t', r)
  {
  }

  // ----- runs -----

  datatype Op = PutOp(now: int, resource: Resource) | DropOp(now: int, namespace: string, ids: seq<string>)

  function Exec(parse: Parser, t: Tables, op: Op): Tables {
    match op
    case PutOp(now, res) => Put(parse, t, now, res).0
    case DropOp(now, namespace, ids) => Drop(parse, t, now, namespace, ids).0
  }

  function Run(parse: Parser, ops: seq<Op>): Tables {
    if ops == [] then EmptyTables else Exec(parse, Run(parse, ops[..|ops| - 1]), ops[|ops| - 1])
  }

  ghost predicate ClockAdvances(ops: seq<Op>) {
    forall i, j :: 0 <= i < j < |ops| ==> ops[i].now <= ops[j].now
  }

  // ----- the log of a namespace -----

  /** An event key within a namespace, ordered by version and then by id. */
  datatype Key = Key(version: int, id: Uuid)

  predicate KeyLess(a: Key, b: Key) {
    a.version < b.version || (a.version == b.version && a.id < b.id)
  }

  lemma KeyOrder()
    ensures StrictTotal(KeyLess)
  {
  }

  function KeysOf(t: Tables, namespace: string): set<Key> {
    set k | k in t.events && k.namespace == namespace :: Key(k.version, k.id)
  }

  predicate Logged(t: Tables, namespace: string, k: Key) {
    EventKey(namespace, k.version, k.id) in t.events
  }

  lemma KeysOfLogged(t: Tables, namespace: string)
    ensures forall k :: k in KeysOf(t, namespace) <==> Logged(t, namespace, k)
  {
    forall k: Key
      ensures k in KeysOf(t, namespace) <==> Logged(t, namespace, k)
    {
      if Logged(t, namespace, k) {
        var ek := EventKey(namespace, k.version, k.id);
        assert ek in t.events && ek.namespace == namespace && Key(ek.version, ek.id) == k;
      }
    }
  }

  function ChangeAt(t: Tables, namespace: string, k: Key): Change<Uuid, CacheRow>
    requires Logged(t, namespace, k)
  {
    var e := t.events[EventKey(namespace, k.version, k.id)];
    if e.status == Active then Set(k.id, CacheRow(k.version, e.content)) else Unset(k.id)
  }

  /** The changes that the events at `ks` describe. */
  function ChangesAt(t: Tables, namespace: string, ks: seq<Key>): (cs: seq<Change<Uuid, CacheRow>>)
    requires forall k :: k in ks ==> Logged(t, namespace, k)
    ensures |cs| == |ks|
  {
    seq(|ks|, i requires 0 <= i < |ks| => ChangeAt(t, namespace, ks[i]))
  }

  /** All events of a namespace, in key order. */
  ghost function LogOf(t: Tables, namespace: string): (ks: seq<Key>)
    ensures Increasing(KeyLess, ks) && Elements(ks) == KeysOf(t, namespace)
    ensures forall k :: k in ks <==> Logged(t, namespace, k)
  {
    KeyOrder();
    KeysOfLogged(t, namespace);
    var ks := Ascending(KeyLess, KeysOf(t, namespace));
    assert forall k :: k in ks <==> k in Elements(ks);
    ks
  }

  /** The cache rows of a namespace, by id. */
  function CacheOf(t: Tables, namespace: string): map<Uuid, CacheRow> {
    map ck | ck in t.cache && ck.namespace == namespace :: ck.id := t.cache[ck]
  }

  lemma CacheOfAt(t: Tables, namespace: string, id: Uuid)
    ensures Get(CacheOf(t, namespace), id) == Get(t.cache, CacheKey(namespace, id))
  {
    if CacheKey(namespace, id) in t.cache {
      var ck := CacheKey(namespace, id);
      assert ck in t.cache && ck.namespace == namespace && ck.id == id;
    }
  }

  // ----- log against cache -----

  /** `k` has the greatest version among the events of its resource. */
  ghost predicate Newest(t: Tables, k: EventKey) {
    forall k' :: k' in t.events && k'.namespace == k.namespace && k'.id == k.id ==> k'.version <= k.version
  }

  /** The cache holds what the event at `k` says about its resource. */
  ghost predicate Agrees(t: Tables, k: EventKey)
    requires k in t.events
  {
    Get(t.cache, CacheKey(k.namespace, k.id)) ==
    if t.events[k].status == Active then Some(CacheRow(k.version, t.events[k].content)) else None
  }

  /** What every transaction keeps: no event is ahead of the clock, every cached row is an event, and
      the newest event of a resource says what the cache holds for it. */
  ghost predicate Consistent(t: Tables, clock: int) {
    && (forall k :: k in t.events ==> k.version <= clock)
    && (forall ck :: ck in t.cache ==> EventKey(ck.namespace, t.cache[ck].version, ck.id) in t.events)
    && (forall k :: k in t.events && Newest(t, k) ==> Agrees(t, k))
  }

  /** Logging one event at the current time, with the matching cache change, keeps consistency. */
  lemma EventKeeps(t: Tables, clock: int, t': Tables, k: EventKey, e: EventRow)
    requires Consistent(t, clock) && clock <= k.version && k !in t.events
    requires t'.events == t.events[k := e]
    requires
      var ck := CacheKey(k.namespace, k.id);
      t'.cache == if e.status == Active then t.cache[ck := CacheRow(k.version, e.content)] else t.cache - {ck}
    ensures Consistent(t', k.version)
  {
    forall o | o in t'.events && Newest(t', o)
      ensures Agrees(t', o)
    {
      if o.namespace == k.namespace && o.id == k.id {
        assert k in t'.events;
        assert o == k;
      } else {
        assert Newest(t, o) by {
          forall o' | o' in t.events && o'.namespace == o.namespace && o'.id == o.id
            ensures o'.version <= o.version
          {
            assert o' in t'.events;
          }
        }
        assert Agrees(t, o);
      }
    }
    forall ck | ck in t'.cache
      ensures EventKey(ck.namespace, t'.cache[ck].version, ck.id) in t'.events
    {
    }
  }

  lemma PutKeeps(parse: Parser, t: Tables, clock: int, now: int, res: Resource)
    requires Consistent(t, clock) && clock <= now
    ensures Consistent(Put(parse, t, now, res).0, now)
  {
    var (t', r) := Put(parse, t, now, res);
    if t' == t {
      assert Consistent(t, now);
    } else {
      var k := EventKey(res.namespace, now, parse(res.id).value);
      EventKeeps(t, clock, t', k, EventRow(Active, Content(res.name, res.spec, res)));
    }
  }

  lemma DropOneKeeps(parse: Parser, t: Tables, clock: int, now: int, namespace: string, idText: string, index: nat)
    requires Consistent(t, clock) && clock <= now
    requires DropOne(parse, t, now, namespace, idText, index).Success?
    ensures Consistent(DropOne(parse, t, now, namespace, idText, index).value, now)
  {
    var t' := DropOne(parse, t, now, namespace, idText, index).value;
    var ck := CacheKey(namespace, parse(idText).value);
    if ck in t.cache {
      EventKeeps(t, clock, t', EventKey(namespace, now, ck.id), EventRow(Dropped, t.cache[ck].content));
    } else {
      assert t'.cache == t.cache;
      assert t' == t && Consistent(t, now);
    }
  }

  lemma {:induction false} DropKeeps(parse: Parser, t: Tables, clock: int, now: int, namespace: string,
      ids: seq<string>)
    requires Consistent(t, clock) && clock <= now
    requires DropAll(parse, t, now, namespace, ids).Success?
    ensures Consistent(DropAll(parse, t, now, namespace, ids).value, now)
  {
    if ids != [] {
      DropKeeps(parse, t, clock, now, namespace, ids[..|ids| - 1]);
      var t' := DropAll(parse, t, now, namespace, ids[..|ids| - 1]).value;
      DropOneKeeps(parse, t', now, now, namespace, ids[|ids| - 1], |ids| - 1);
    }
  }

  lemma ExecKeeps(parse: Parser, t: Tables, clock: int, op: Op)
    requires Consistent(t, clock) && clock <= op.now
    ensures Consistent(Exec(parse, t, op), op.now)
  {
    match op
    case PutOp(now, res) => PutKeeps(parse, t, clock, now, res);
    case DropOp(now, namespace, ids) =>
      if DropAll(parse, t, now, namespace, ids).Success? {
        DropKeeps(parse, t, clock, now, namespace, ids);
      }
  }

  lemma {:induction false} RunConsistent(parse: Parser, ops: seq<Op>)
    requires ClockAdvances(ops)
    ensures Consistent(Run(parse, ops), if ops == [] then 0 else ops[|ops| - 1].now)
  {
    if ops != [] {
      var init := ops[..|ops| - 1];
      RunConsistent(parse, init);
      var last := ops[|ops| - 1];
      if init == [] {
        assert Consistent(Run(parse, init), last.now);
        ExecKeeps(parse, Run(parse, init), last.now, last);
      } else {
        ExecKeeps(parse, Run(parse, init), init[|init| - 1].now, last);
      }
    }
  }

  /** `j` is the last position in `ks` with the given id. */
  ghost predicate LastPosition(ks: seq<Key>, id: Uuid, j: int) {
    0 <= j < |ks| && ks[j].id == id && forall i :: j < i < |ks| ==> ks[i].id != id
  }

  /** The last change on `id` in a stretch of the log is the one at its last key for `id`. */
  lemma {:induction false} LastInLog(t: Tables, namespace: string, ks: seq<Key>, id: Uuid) returns (j: int)
    requires forall k :: k in ks ==> Logged(t, namespace, k)
    ensures Last(ChangesAt(t, namespace, ks), id).None? ==> forall k :: k in ks ==> k.id != id
    ensures Last(ChangesAt(t, namespace, ks), id).Some? ==>
              LastPosition(ks, id, j) && Last(ChangesAt(t, namespace, ks), id) == Some(ChangeAt(t, namespace, ks[j]))
  {
    j := 0;
    if ks != [] {
      var init := ks[..|ks| - 1];
      j := LastInLog(t, namespace, init, id);
      var cs := ChangesAt(t, namespace, ks);
      assert cs[..|cs| - 1] == ChangesAt(t, namespace, init);
      assert cs[|cs| - 1] == ChangeAt(t, namespace, ks[|ks| - 1]);
      assert forall i :: 0 <= i < |init| ==> init[i] == ks[i];
      if ks[|ks| - 1].id == id {
        j := |ks| - 1;
      }
    }
  }

  /** The last key for `id` in the log is the newest event of its resource. */
  lemma LastIsNewest(t: Tables, namespace: string, id: Uuid, j: nat)
    requires LastPosition(LogOf(t, namespace), id, j)
    ensures Logged(t, namespace, LogOf(t, namespace)[j])
    ensures Newest(t, EventKey(namespace, LogOf(t, namespace)[j].version, id))
  {
    var ks := LogOf(t, namespace);
    forall k | k in t.events && k.namespace == namespace && k.id == id
      ensures k.version <= ks[j].version
    {
      assert Logged(t, namespace, Key(k.version, id));
      var i :| 0 <= i < |ks| && ks[i] == Key(k.version, id);
      assert i < j ==> KeyLess(ks[i], ks[j]);
    }
  }

  lemma LogIsCacheAt(t: Tables, clock: int, namespace: string, id: Uuid)
    requires Consistent(t, clock)
    ensures Get(Replay(map[], ChangesAt(t, namespace, LogOf(t, namespace))), id) ==
            Get(t.cache, CacheKey(namespace, id))
  {
    var ks := LogOf(t, namespace);
    var cs := ChangesAt(t, namespace, ks);
    ReplayAt(map[], cs, id);
    var j := LastInLog(t, namespace, ks, id);
    if Last(cs, id).Some? {
      LastIsNewest(t, namespace, id, j);
      NewestAgrees(t, clock, EventKey(namespace, ks[j].version, id));
    } else {
      CachedIsLogged(t, clock, CacheKey(namespace, id));
    }
  }

  lemma NewestAgrees(t: Tables, clock: int, k: EventKey)
    requires Consistent(t, clock) && k in t.events && Newest(t, k)
    ensures Agrees(t, k)
  {
  }

  lemma CachedIsLogged(t: Tables, clock: int, ck: CacheKey)
    requires Consistent(t, clock)
    ensures ck in t.cache ==> Key(t.cache[ck].version, ck.id) in LogOf(t, ck.namespace)
  {
    if ck in t.cache {
      assert Logged(t, ck.namespace, Key(t.cache[ck].version, ck.id));
    }
  }

  /** In a consistent store the log, replayed in key order from nothing, is the cache. */
  lemma LogIsCache(t: Tables, clock: int, namespace: string)
    requires Consistent(t, clock)
    ensures Replay(map[], ChangesAt(t, namespace, LogOf(t, namespace))) == CacheOf(t, namespace)
  {
    var replica := Replay(map[], ChangesAt(t, namespace, LogOf(t, namespace)));
    forall id: Uuid
      ensures Get(replica, id) == Get(CacheOf(t, namespace), id)
    {
      LogIsCacheAt(t, clock, namespace, id);
      CacheOfAt(t, namespace, id);
    }
    SameMap(replica, CacheOf(t, namespace));
  }

  /** Log equals cache, for every serial run under a clock that does not go back. */
  lemma LogEqualsCache(parse: Parser, ops: seq<Op>, namespace: string)
    requires ClockAdvances(ops)
    ensures
      var t := Run(parse, ops);
      Replay(map[], ChangesAt(t, namespace, LogOf(t, namespace))) == CacheOf(t, namespace)
  {
    RunConsistent(parse, ops);
    LogIsCache(Run(parse, ops), if ops == [] then 0 else ops[|ops| - 1].now, namespace);
  }
}
