/**
 The gateway: the policies it holds as active, and the two matchers it keeps in line with them,
 one batch of updates and drops at a time.
 */
module Gateway {
  import opened Wrappers
  import opened ResourceStore
  import opened Watch
  import opened Matcher
  import opened SourceMatching

  /** Unmarshalling of a resource spec into a policy; it can fail. */
  type Decoder = Spec -> Option<GatewayPolicy>

  type Policies = map<Uuid, GatewayPolicy>

  /** The policies that the rows of a list leave under their ids: rows that do not decode are skipped,
      and a later row of an id replaces an earlier one. */
  function Decoded(decode: Decoder, rows: seq<Row>): Policies {
    if rows == [] then map[]
    else
      var row := rows[|rows| - 1];
      var rest := Decoded(decode, rows[..|rows| - 1]);
      match decode(row.content.spec)
      case None => rest
      case Some(p) => rest[row.id := p]
  }

  /** The active policies after one batch: the drops go first, then the updates. */
  function AfterPage(decode: Decoder, active: Policies, updated: seq<Row>, dropped: seq<Row>): Policies {
    (active - Decoded(decode, dropped).Keys) + Decoded(decode, updated)
  }

  /** The keys that the policies under some ids are filed under. */
  function KeysFor(policies: Policies, ids: set<Uuid>): set<RouteKey> {
    set id | id in ids && id in policies && Sourced(policies[id]) :: KeyOf(policies[id])
  }

  /** The prefix paths that the policies under some ids insert. */
  function PathsFor(policies: Policies, ids: set<Uuid>): set<string> {
    set id | id in ids && id in policies && policies[id].source.Http? && !policies[id].source.exactPathMatch ::
      policies[id].source.path
  }

  type Table = map<RouteKey, GatewayPolicy>

  /** A policy under one of the ids is filed under the key. */
  ghost predicate FiledAs(added: Policies, ids: set<Uuid>, k: RouteKey, p: GatewayPolicy) {
    exists id :: id in ids && id in added && Sourced(added[id]) && KeyOf(added[id]) == k && added[id] == p
  }

  /** What adding policies in any order can do to a table: their keys are filed with one of their own
      policies, and every other key keeps what it had. */
  ghost predicate Upserted(t: Table, t': Table, added: Policies, ids: set<Uuid>) {
    && t'.Keys == t.Keys + KeysFor(added, ids)
    && forall k :: k in t' ==> if k in KeysFor(added, ids) then FiledAs(added, ids, k, t'[k]) else t'[k] == t[k]
  }

  /** The active policies, the entries of both matchers, and the prefix paths ever inserted. */
  datatype Routing = Routing(active: Policies, table: Table, paths: set<string>)

  datatype Batch = Batch(updated: Policies, dropped: set<Uuid>)

  /** One batch, in any iteration order of its two maps. */
  ghost predicate Applied(s: Routing, b: Batch, s': Routing) {
    && s'.active == (s.active - b.dropped) + b.updated
    && Upserted(s.table - KeysFor(s.active, b.dropped), s'.table, b.updated, b.updated.Keys)
    && s'.paths == s.paths + PathsFor(b.updated, b.updated.Keys)
  }

  class Gateway {
    const decode: Decoder
    var active: Policies
    var updated: Policies
    var dropped: Policies
    const grpcMatcher: SourceMatcher
    const httpMatcher: SourceMatcher
    ghost var flat: Flat

    ghost function Matchers(): set<object>
      reads grpcMatcher.exact, grpcMatcher.prefix, httpMatcher.exact, httpMatcher.prefix
    {
      grpcMatcher.Footprint() + httpMatcher.Footprint()
    }

    ghost predicate Valid()
      reads this`flat, grpcMatcher.exact, grpcMatcher.prefix, httpMatcher.exact, httpMatcher.prefix, Matchers()
      ensures Valid() ==> this !in Matchers()
      ensures Valid() ==>
                {grpcMatcher.exact, grpcMatcher.prefix, httpMatcher.exact, httpMatcher.prefix} <= Matchers()
    {
      && grpcMatcher.Valid() && httpMatcher.Valid()
      && grpcMatcher.Footprint() !! httpMatcher.Footprint()
      && this !in Matchers()
      && HoldsGrpc(grpcMatcher.View(), flat)
      && HoldsHttp(httpMatcher.View(), flat)
    }

    /** What the gateway holds; `Valid` ties the tables to the matchers. */
    ghost function Held(): Routing
      reads this
    {
      Routing(active, flat.table, flat.paths)
    }

    constructor (decode: Decoder)
      ensures Valid() && fresh(Matchers())
      ensures this.decode == decode && Held() == Routing(map[], map[], {})
    {
      hide PolicyMatcher.Valid;
      this.decode := decode;
      active, updated, dropped := map[], map[], map[];
      grpcMatcher := new SourceMatcher();
      httpMatcher := new SourceMatcher();
      flat := NoFlat;
    }

    method FileGrpc(p: GatewayPolicy)
      requires Valid() && p.source.Grpc?
      modifies this`flat, grpcMatcher.Footprint()
      ensures Valid() && fresh(Matchers() - old(Matchers()))
      ensures active == old(active) && updated == old(updated) && dropped == old(dropped)
      ensures flat == FlatAdded(old(flat), p)
    {
      hide HoldsGrpc, HoldsHttp, TreesAdded, TreesDropped, FlatAdded, FlatDropped;
      GrpcAdded(grpcMatcher.View(), flat, p);
      OtherKindHolds(httpMatcher.View(), flat, p);
      grpcMatcher.AddPolicy(p);
      assert httpMatcher.Valid() && httpMatcher.View() == old(httpMatcher.View());
      flat := FlatAdded(flat, p);
    }

    method UnfileGrpc(p: GatewayPolicy)
      requires Valid() && p.source.Grpc?
      modifies this`flat, grpcMatcher.Footprint()
      ensures Valid() && Matchers() == old(Matchers())
      ensures active == old(active) && updated == old(updated) && dropped == old(dropped)
      ensures flat == FlatDropped(old(flat), p)
    {
      hide HoldsGrpc, HoldsHttp, TreesAdded, TreesDropped, FlatAdded, FlatDropped;
      GrpcDropped(grpcMatcher.View(), flat, p);
      OtherKindHolds(httpMatcher.View(), flat, p);
      grpcMatcher.DropPolicy(p);
      assert httpMatcher.Valid() && httpMatcher.View() == old(httpMatcher.View());
      flat := FlatDropped(flat, p);
    }

    method FileHttp(p: GatewayPolicy)
      requires Valid() && p.source.Http?
      modifies this`flat, httpMatcher.Footprint()
      ensures Valid() && fresh(Matchers() - old(Matchers()))
      ensures active == old(active) && updated == old(updated) && dropped == old(dropped)
      ensures flat == FlatAdded(old(flat), p)
    {
      hide HoldsGrpc, HoldsHttp, TreesAdded, TreesDropped, FlatAdded, FlatDropped;
      HttpAdded(httpMatcher.View(), flat, p);
      OtherKindHolds(grpcMatcher.View(), flat, p);
      httpMatcher.AddPolicy(p);
      assert grpcMatcher.Valid() && grpcMatcher.View() == old(grpcMatcher.View());
      flat := FlatAdded(flat, p);
    }

    method UnfileHttp(p: GatewayPolicy)
      requires Valid() && p.source.Http?
      modifies this`flat, httpMatcher.Footprint()
      ensures Valid() && Matchers() == old(Matchers())
      ensures active == old(active) && updated == old(updated) && dropped == old(dropped)
      ensures flat == FlatDropped(old(flat), p)
    {
      hide HoldsGrpc, HoldsHttp, TreesAdded, TreesDropped, FlatAdded, FlatDropped;
      HttpDropped(httpMatcher.View(), flat, p);
      OtherKindHolds(grpcMatcher.View(), flat, p);
      httpMatcher.DropPolicy(p);
      assert grpcMatcher.Valid() && grpcMatcher.View() == old(grpcMatcher.View());
      flat := FlatDropped(flat, p);
    }

    /** Files a policy with the matcher of its source; a policy without a source is not filed. */
    method File(p: GatewayPolicy)
      requires Valid()
      modifies this`flat, Matchers()
      ensures Valid() && fresh(Matchers() - old(Matchers()))
      ensures active == old(active) && updated == old(updated) && dropped == old(dropped)
      ensures flat == if Sourced(p) then FlatAdded(old(flat), p) else old(flat)
    {
      if p.source.Grpc? {
        FileGrpc(p);
      } else if p.source.Http? {
        FileHttp(p);
      }
    }

    method Unfile(p: GatewayPolicy)
      requires Valid()
      modifies this`flat, Matchers()
      ensures Valid() && Matchers() == old(Matchers())
      ensures active == old(active) && updated == old(updated) && dropped == old(dropped)
      ensures flat == if Sourced(p) then FlatDropped(old(flat), p) else old(flat)
    {
      if p.source.Grpc? {
        UnfileGrpc(p);
      } else if p.source.Http? {
        UnfileHttp(p);
      }
    }

    /** One turn of the loop over the dropped ids. */
    method DropOne(id: Uuid)
      requires Valid()
      modifies this`active, this`flat, Matchers()
      ensures Valid() && fresh(Matchers() - old(Matchers()))
      ensures updated == old(updated) && dropped == old(dropped)
      ensures active == old(active) - {id} && flat.paths == old(flat.paths)
      ensures flat.table == old(flat.table) - KeysFor(old(active), {id})
    {
      hide Valid;
      KeysForOne(active, id);
      if id in active {
        var p := active[id];
        active := active - {id};
        Unfile(p);
      }
    }

    /** The first loop of a batch, over the dropped ids in any order. */
    method ApplyDrops()
      requires Valid()
      modifies this`active, this`flat, Matchers()
      ensures Valid() && fresh(Matchers() - old(Matchers()))
      ensures updated == old(updated) && dropped == old(dropped)
      ensures active == old(active) - dropped.Keys && flat.paths == old(flat.paths)
      ensures flat.table == old(flat.table) - KeysFor(old(active), dropped.Keys)
    {
      hide Valid, KeysFor;
      var todo := dropped.Keys;
      ghost var done: set<Uuid> := {};
      KeysForNone(active);
      while todo != {}
        invariant todo <= dropped.Keys && done == dropped.Keys - todo
        invariant Valid() && fresh(Matchers() - old(Matchers()))
        invariant updated == old(updated) && dropped == old(dropped)
        invariant active == old(active) - done && flat.paths == old(flat.paths)
        invariant flat.table == old(flat.table) - KeysFor(old(active), done)
        decreases todo
      {
        var id :| id in todo;
        KeysForMore(old(active), done, id);
        todo := todo - {id};
        DropOne(id);
        done := done + {id};
      }
      assert done == dropped.Keys;
    }

    /** One turn of the loop over the updated ids. */
    method UpdateOne(id: Uuid)
      requires Valid() && id in updated
      modifies this`active, this`flat, Matchers()
      ensures Valid() && fresh(Matchers() - old(Matchers()))
      ensures updated == old(updated) && dropped == old(dropped)
      ensures active == old(active)[id := updated[id]]
      ensures flat.table == TableWith(old(flat.table), updated[id])
      ensures flat.paths == old(flat.paths) + PathsFor(updated, {id})
    {
      hide Valid;
      PathsForOne(updated, id);
      active := active[id := updated[id]];
      File(updated[id]);
    }

    /** The second loop of a batch, over the updated ids in any order. */
    method ApplyUpdates()
      requires Valid()
      modifies this`active, this`flat, Matchers()
      ensures Valid() && fresh(Matchers() - old(Matchers()))
      ensures updated == old(updated) && dropped == old(dropped)
      ensures active == old(active) + updated
      ensures Upserted(old(flat.table), flat.table, updated, updated.Keys)
      ensures flat.paths == old(flat.paths) + PathsFor(updated, updated.Keys)
    {
      hide Valid, Upserted, PathsFor, Part, TableWith;
      UpsertedNone(flat.table, updated);
      NoPart(active, updated);
      var todo := updated.Keys;
      ghost var done: set<Uuid> := {};
      while todo != {}
        invariant todo <= updated.Keys && done == updated.Keys - todo
        invariant Valid() && fresh(Matchers() - old(Matchers()))
        invariant updated == old(updated) && dropped == old(dropped)
        invariant active == old(active) + Part(updated, done)
        invariant Upserted(old(flat.table), flat.table, updated, done)
        invariant flat.paths == old(flat.paths) + PathsFor(updated, done)
        decreases todo
      {
        var id :| id in todo;
        UpsertedMore(old(flat.table), flat.table, updated, done, id);
        PathsForMore(updated, done, id);
        PartMore(old(active), updated, done, id);
        todo := todo - {id};
        UpdateOne(id);
        done := done + {id};
      }
      assert done == updated.Keys;
      WholePart(updated);
    }

    /** The batch step: whatever the iteration orders, it ends in a state that the batch allows. */
    method AfterBatch()
      requires Valid()
      modifies this`active, this`flat, Matchers()
      ensures Valid() && fresh(Matchers() - old(Matchers()))
      ensures updated == old(updated) && dropped == old(dropped)
      ensures Applied(old(Held()), Batch(updated, dropped.Keys), Held())
    {
      hide Valid;
      ApplyDrops();
      ApplyUpdates();
    }

    /** Collects the decodable rows of a list under their ids. */
    method Collect(rows: seq<Row>) returns (m: Policies)
      ensures m == Decoded(decode, rows)
    {
      m := map[];
      for i := 0 to |rows|
        invariant m == Decoded(decode, rows[..i])
      {
        assert rows[..i + 1][..i] == rows[..i];
        var p := decode(rows[i].content.spec);
        if p.Some? {
          m := m[rows[i].id := p.value];
        }
      }
      assert rows[..|rows|] == rows;
    }

    /** Handles one page of the stream: all its updates, then all its drops, then the batch step. */
    method HandlePage(updatedRows: seq<Row>, droppedRows: seq<Row>)
      requires Valid()
      modifies this, Matchers()
      ensures Valid() && fresh(Matchers() - old(Matchers()))
      ensures active == AfterPage(decode, old(active), updatedRows, droppedRows)
      ensures Applied(old(Held()), Batch(Decoded(decode, updatedRows), Decoded(decode, droppedRows).Keys), Held())
    {
      hide Valid;
      updated := Collect(updatedRows);
      dropped := Collect(droppedRows);
      AfterBatch();
    }

    function MatchHttp(path: string, verb: string): (r: Option<GatewayPolicy>)
      requires Valid()
      reads this`flat, grpcMatcher.exact, grpcMatcher.prefix, httpMatcher.exact, httpMatcher.prefix, Matchers()
      ensures r == FlatHttpMatch(flat, path, verb)
    {
      HttpMatchHolds(httpMatcher.View(), flat, path, verb);
      httpMatcher.MatchPolicy([path, verb])
    }

    function MatchGrpc(name: string): (r: Option<GatewayPolicy>)
      requires Valid()
      reads this`flat, grpcMatcher.exact, grpcMatcher.prefix, httpMatcher.exact, httpMatcher.prefix, Matchers()
      ensures r == FlatGrpcMatch(flat, name)
    {
      GrpcMatchHolds(grpcMatcher.View(), flat, name);
      grpcMatcher.MatchPolicy([name])
    }
  }

  /** The table after filing a policy, if it has a source. */
  function TableWith(t: Table, p: GatewayPolicy): Table {
    if Sourced(p) then t[KeyOf(p) := p] else t
  }

  lemma KeysForNone(policies: Policies)
    ensures KeysFor(policies, {}) == {}
  {
  }

  lemma KeysForOne(policies: Policies, id: Uuid)
    ensures KeysFor(policies, {id}) == if id in policies && Sourced(policies[id]) then {KeyOf(policies[id])} else {}
  {
  }

  /** Dropping one id more, from what the ids before leave. */
  lemma KeysForMore(policies: Policies, ids: set<Uuid>, id: Uuid)
    requires id !in ids
    ensures KeysFor(policies, ids + {id}) == KeysFor(policies, ids) + KeysFor(policies - ids, {id})
  {
  }

  lemma PathsForOne(policies: Policies, id: Uuid)
    requires id in policies
    ensures PathsFor(policies, {id}) ==
            if policies[id].source.Http? && !policies[id].source.exactPathMatch then {policies[id].source.path} else {}
  {
  }

  lemma PathsForMore(policies: Policies, ids: set<Uuid>, id: Uuid)
    ensures PathsFor(policies, {}) == {}
    ensures PathsFor(policies, ids + {id}) == PathsFor(policies, ids) + PathsFor(policies, {id})
  {
  }

  /** The updates under some ids. */
  function Part(updated: Policies, ids: set<Uuid>): Policies {
    map id | id in ids && id in updated :: updated[id]
  }

  lemma NoPart(active: Policies, updated: Policies)
    ensures active + Part(updated, {}) == active && PathsFor(updated, {}) == {}
  {
  }

  lemma PartMore(active: Policies, updated: Policies, ids: set<Uuid>, id: Uuid)
    requires id in updated
    ensures active + Part(updated, ids + {id}) == (active + Part(updated, ids))[id := updated[id]]
  {
  }

  lemma WholePart(updated: Policies)
    ensures Part(updated, updated.Keys) == updated
  {
  }

  lemma UpsertedNone(t: Table, added: Policies)
    ensures Upserted(t, t, added, {})
  {
  }

  lemma UpsertedMore(t: Table, t': Table, added: Policies, ids: set<Uuid>, id: Uuid)
    requires Upserted(t, t', added, ids) && id in added
    ensures Upserted(t, TableWith(t', added[id]), added, ids + {id})
  {
    var p, more := added[id], ids + {id};
    assert KeysFor(added, more) == KeysFor(added, ids) + if Sourced(p) then {KeyOf(p)} else {};
    forall k, q | FiledAs(added, ids, k, q)
      ensures FiledAs(added, more, k, q)
    {
      var other :| other in ids && other in added && Sourced(added[other]) && KeyOf(added[other]) == k &&
          added[other] == q;
      assert other in more;
    }
    assert Sourced(p) ==> FiledAs(added, more, KeyOf(p), p);
    hide FiledAs, KeysFor;
  }
}
