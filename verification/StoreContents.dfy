/**
 What the store holds after any run, told from the requests alone: each put writes just what it was asked to, and
 each row is that of the last put since the last drop.
 */
module StoreContents {
  import opened Wrappers
  import opened ResourceStore

  // ----- one put -----

  /** The id of a resource is cached with the very content that is put. */
  ghost predicate Unchanged(parse: Parser, t: Tables, res: Resource)
    requires parse(res.id).Some?
  {
    Get(t.cache, CacheKey(res.namespace, parse(res.id).value)) != None &&
    t.cache[CacheKey(res.namespace, parse(res.id).value)].content.digest == res
  }

  /** The tables with one cache row and one event written, and every other entry as it was. */
  ghost predicate Written(t: Tables, t': Tables, namespace: string, id: Uuid, now: int, name: string, spec: Spec,
      digest: Digest) {
    && (forall ck :: Get(t'.cache, ck) ==
          if ck == CacheKey(namespace, id) then Some(CacheRow(now, Content(name, spec, digest))) else Get(t.cache, ck))
    && (forall k :: Get(t'.events, k) ==
          if k == EventKey(namespace, now, id) then Some(EventRow(Active, Content(name, spec, digest)))
          else Get(t.events, k))
  }

  /** A put, exactly: a bad id, an unchanged resource and a key clash write nothing; otherwise the row and an ACTIVE
      event hold the name, the specification and the digest of the resource at the current time. */
  lemma PutExact(parse: Parser, t: Tables, now: int, res: Resource)
    ensures
      var (t', r) := Put(parse, t, now, res);
      match parse(res.id)
      case None => r == Failure(InvalidId(0)) && t' == t
      case Some(id) =>
        var clash := EventKey(res.namespace, now, id) in t.events;
        && (Unchanged(parse, t, res) ==>
              r == Success(Version(res, t.cache[CacheKey(res.namespace, id)].version)) && t' == t)
        && (!Unchanged(parse, t, res) && clash ==> r == Failure(KeyClash) && t' == t)
        && (!Unchanged(parse, t, res) && !clash ==>
              r == Success(Version(res, now)) && Written(t, t', res.namespace, id, now, res.name, res.spec, res))
  {
  }

  /** A failed drop reports the first id of the list that cannot be dropped, and why. */
  lemma DropErrorExact(parse: Parser, t: Tables, now: int, namespace: string, ids: seq<string>, i: nat)
    requires i < |ids|
    requires Droppable(parse, t, now, namespace, ids[..i]) && !Droppable(parse, t, now, namespace, ids[..i + 1])
    ensures Drop(parse, t, now, namespace, ids).1 == Failure(if parse(ids[i]).None? then InvalidId(i) else KeyClash)
  {
    var init, more := ids[..i], ids[..i + 1];
    assert more[..i] == init && more[i] == ids[i];
    DropAllExact(parse, t, now, namespace, init);
    DropAllExact(parse, t, now, namespace, more);
    DropAllFails(parse, t, now, namespace, ids, i + 1);
  }

  // ----- honest contents -----

  /** Name and specification are those that the digest was taken of, and so are namespace and id. */
  predicate Honest(parse: Parser, namespace: string, id: Uuid, c: Content) {
    && c.name == c.digest.name && c.spec == c.digest.spec
    && c.digest.namespace == namespace && parse(c.digest.id) == Some(id)
  }

  ghost predicate AllHonest(parse: Parser, t: Tables) {
    && (forall ck :: ck in t.cache ==> Honest(parse, ck.namespace, ck.id, t.cache[ck].content))
    && (forall k :: k in t.events ==> Honest(parse, k.namespace, k.id, t.events[k].content))
  }

  lemma PutHonest(parse: Parser, t: Tables, now: int, res: Resource)
    requires AllHonest(parse, t)
    ensures AllHonest(parse, Put(parse, t, now, res).0)
  {
  }

  lemma DropHonest(parse: Parser, t: Tables, now: int, namespace: string, ids: seq<string>)
    requires AllHonest(parse, t)
    ensures AllHonest(parse, Drop(parse, t, now, namespace, ids).0)
  {
    DropExact(parse, t, now, namespace, ids);
  }

  /** In every run each cached row and each event holds the name and the specification of its own digest, which
      names its own namespace and id. */
  lemma {:induction false} RunHonest(parse: Parser, ops: seq<Op>)
    ensures AllHonest(parse, Run(parse, ops))
  {
    if ops != [] {
      var t := Run(parse, ops[..|ops| - 1]);
      RunHonest(parse, ops[..|ops| - 1]);
      match ops[|ops| - 1]
      case PutOp(now, res) => PutHonest(parse, t, now, res);
      case DropOp(now, namespace, ids) => DropHonest(parse, t, now, namespace, ids);
    }
  }

  // ----- the last put -----

  ghost predicate Puts(parse: Parser, op: Op, ck: CacheKey) {
    op.PutOp? && op.resource.namespace == ck.namespace && parse(op.resource.id) == Some(ck.id)
  }

  ghost predicate Drops(parse: Parser, op: Op, ck: CacheKey) {
    && op.DropOp? && op.namespace == ck.namespace
    && exists i :: 0 <= i < |op.ids| && parse(op.ids[i]) == Some(ck.id)
  }

  /** The operation succeeds in the given tables. */
  ghost predicate Succeeds(parse: Parser, t: Tables, op: Op) {
    match op
    case PutOp(now, res) => Put(parse, t, now, res).1.Success?
    case DropOp(now, namespace, ids) => Drop(parse, t, now, namespace, ids).1.Success?
  }

  /** The last successful operation of a run that puts or drops a key. */
  ghost function LastOn(parse: Parser, ops: seq<Op>, ck: CacheKey): Option<Op> {
    if ops == [] then None
    else
      var init, op := ops[..|ops| - 1], ops[|ops| - 1];
      if (Puts(parse, op, ck) || Drops(parse, op, ck)) && Succeeds(parse, Run(parse, init), op) then Some(op)
      else LastOn(parse, init, ck)
  }

  /** The cache holds nothing for a key that was not put since it was last dropped, and otherwise the resource of
      the last put. */
  ghost predicate HoldsLast(t: Tables, ck: CacheKey, last: Option<Op>) {
    if last.None? || last.value.DropOp? then ck !in t.cache
    else
      var res := last.value.resource;
      ck in t.cache && t.cache[ck].content == Content(res.name, res.spec, res)
  }

  lemma PutHolds(parse: Parser, t: Tables, now: int, res: Resource, ck: CacheKey, last: Option<Op>)
    requires AllHonest(parse, t) && HoldsLast(t, ck, last)
    ensures
      var op := PutOp(now, res);
      HoldsLast(Put(parse, t, now, res).0, ck,
                if Puts(parse, op, ck) && Succeeds(parse, t, op) then Some(op) else last)
  {
    PutExact(parse, t, now, res);
  }

  lemma DropHolds(parse: Parser, t: Tables, now: int, namespace: string, ids: seq<string>, ck: CacheKey,
      last: Option<Op>)
    requires HoldsLast(t, ck, last)
    ensures
      var op := DropOp(now, namespace, ids);
      HoldsLast(Drop(parse, t, now, namespace, ids).0, ck,
                if Drops(parse, op, ck) && Succeeds(parse, t, op) then Some(op) else last)
  {
    DropExact(parse, t, now, namespace, ids);
    assert ck in Named(parse, namespace, ids) <==> Drops(parse, DropOp(now, namespace, ids), ck);
  }

  /** In every run the cache holds under a key the name, the specification and the digest of the last successful
      put, if the key was not dropped since, and nothing otherwise. */
  lemma {:induction false} RunHoldsLast(parse: Parser, ops: seq<Op>, ck: CacheKey)
    ensures HoldsLast(Run(parse, ops), ck, LastOn(parse, ops, ck))
  {
    if ops != [] {
      var init := ops[..|ops| - 1];
      var t := Run(parse, init);
      RunHonest(parse, init);
      RunHoldsLast(parse, init, ck);
      hide AllHonest, HoldsLast, Put, Drop;
      match ops[|ops| - 1]
      case PutOp(now, res) => PutHolds(parse, t, now, res, ck, LastOn(parse, init, ck));
      case DropOp(now, namespace, ids) => DropHolds(parse, t, now, namespace, ids, ck, LastOn(parse, init, ck));
    }
  }

  /** The row that a run leaves under a key: a put that changes nothing keeps the row of the put before, and its
      version with it. */
  ghost function RowOf(parse: Parser, ops: seq<Op>, ck: CacheKey): Option<CacheRow> {
    if ops == [] then None
    else
      var init, op := ops[..|ops| - 1], ops[|ops| - 1];
      var before := RowOf(parse, init, ck);
      if !Succeeds(parse, Run(parse, init), op) then before
      else if Drops(parse, op, ck) then None
      else if !Puts(parse, op, ck) then before
      else if before.Some? && before.value.content.digest == op.resource then before
      else Some(CacheRow(op.now, Content(op.resource.name, op.resource.spec, op.resource)))
  }

  lemma PutRow(parse: Parser, t: Tables, now: int, res: Resource, ck: CacheKey)
    ensures
      var op, before := PutOp(now, res), Get(t.cache, ck);
      Get(Put(parse, t, now, res).0.cache, ck) ==
      if !Puts(parse, op, ck) || !Succeeds(parse, t, op) then before
      else if before.Some? && before.value.content.digest == res then before
      else Some(CacheRow(now, Content(res.name, res.spec, res)))
  {
    PutExact(parse, t, now, res);
  }

  lemma DropRow(parse: Parser, t: Tables, now: int, namespace: string, ids: seq<string>, ck: CacheKey)
    ensures
      var op := DropOp(now, namespace, ids);
      Get(Drop(parse, t, now, namespace, ids).0.cache, ck) ==
      if Drops(parse, op, ck) && Succeeds(parse, t, op) then None else Get(t.cache, ck)
  {
    DropExact(parse, t, now, namespace, ids);
    assert ck in Named(parse, namespace, ids) <==> Drops(parse, DropOp(now, namespace, ids), ck);
  }

  /** In every run the row under a key, version and content, is that of the last put that changed something since
      the last drop. */
  lemma {:induction false} RunRow(parse: Parser, ops: seq<Op>, ck: CacheKey)
    ensures Get(Run(parse, ops).cache, ck) == RowOf(parse, ops, ck)
  {
    if ops != [] {
      var init := ops[..|ops| - 1];
      var t := Run(parse, init);
      RunRow(parse, init, ck);
      hide Put, Drop;
      match ops[|ops| - 1]
      case PutOp(now, res) => PutRow(parse, t, now, res, ck);
      case DropOp(now, namespace, ids) => DropRow(parse, t, now, namespace, ids, ck);
    }
  }
}
