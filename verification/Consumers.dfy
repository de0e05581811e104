/**
 A page as its two consumers apply it, against replaying its events one by one.

 The stream hands a page over as all updates and then all drops.  The gateway applies the drops
 first; the worker applies the updates first.
 */
module Consumers {
  import opened Changes
  import opened ResourceStore
  import opened Watch
  import opened Matcher
  import opened Gateway
  import opened Worker

  function RowAt(t: Tables, namespace: string, k: Key): Row
    requires Logged(t, namespace, k)
  {
    Row(k.id, k.version, EventOf(t, namespace, k).content)
  }

  /** One more event adds its row at the end of the list of its status. */
  lemma RowsAppend(t: Tables, namespace: string, ks: seq<Key>, status: Status)
    requires AllLogged(t, namespace, ks) && ks != []
    ensures
      var init, k := ks[..|ks| - 1], ks[|ks| - 1];
      var before, after := RowsWith(t, namespace, init, status), RowsWith(t, namespace, ks, status);
      if EventOf(t, namespace, k).status == status
      then after == before + [RowAt(t, namespace, k)] && after[..|after| - 1] == before
      else after == before
  {
  }

  /** What one more change adds to the replays of the two lists. */
  lemma SplitStep<V>(m: map<Uuid, V>, cs: seq<Change<Uuid, V>>, c: Change<Uuid, V>)
    ensures Replay(m, Updates(cs + [c])) == if c.Set? then Apply(Replay(m, Updates(cs)), c) else Replay(m, Updates(cs))
    ensures Replay(m, Drops(cs + [c])) == if c.Unset? then Apply(Replay(m, Drops(cs)), c) else Replay(m, Drops(cs))
  {
    assert (cs + [c])[..|cs|] == cs;
    var u, d := Updates(cs), Drops(cs);
    assert (u + [c])[..|u|] == u && (d + [c])[..|d|] == d;
    assert u + [] == u && d + [] == d;
  }

  // ----- the gateway -----

  /** The change one event makes to the active policies; an event that does not decode makes none. */
  function PolicyChange(decode: Decoder, t: Tables, namespace: string, k: Key): seq<Change<Uuid, GatewayPolicy>>
    requires Logged(t, namespace, k)
  {
    match decode(EventOf(t, namespace, k).content.spec)
    case None => []
    case Some(p) => if EventOf(t, namespace, k).status == Active then [Set(k.id, p)] else [Unset(k.id)]
  }

  function PolicyChanges(decode: Decoder, t: Tables, namespace: string, ks: seq<Key>): seq<Change<Uuid, GatewayPolicy>>
    requires AllLogged(t, namespace, ks)
  {
    if ks == [] then []
    else PolicyChanges(decode, t, namespace, ks[..|ks| - 1]) + PolicyChange(decode, t, namespace, ks[|ks| - 1])
  }

  lemma DecodedStep(decode: Decoder, rows: seq<Row>, m: Policies)
    requires rows != []
    ensures
      var init, last := rows[..|rows| - 1], rows[|rows| - 1];
      var before, after := Decoded(decode, init), Decoded(decode, rows);
      match decode(last.content.spec)
      case None => after == before
      case Some(p) =>
        && m + after == Apply(m + before, Set(last.id, p))
        && m - after.Keys == Apply(m - before.Keys, Unset(last.id))
  {
    var init, last := rows[..|rows| - 1], rows[|rows| - 1];
    var before, after := Decoded(decode, init), Decoded(decode, rows);
    if decode(last.content.spec).Some? {
      var p := decode(last.content.spec).value;
      assert after == before[last.id := p];
      assert m + after == (m + before)[last.id := p];
      assert m - after.Keys == m - before.Keys - {last.id};
    }
  }

  /** The decoded lists of a page are its updates and its drops. */
  lemma {:induction false} DecodedLists(decode: Decoder, t: Tables, namespace: string, ks: seq<Key>, m: Policies)
    requires AllLogged(t, namespace, ks)
    ensures Replay(m, Updates(PolicyChanges(decode, t, namespace, ks))) ==
            m + Decoded(decode, RowsWith(t, namespace, ks, Active))
    ensures Replay(m, Drops(PolicyChanges(decode, t, namespace, ks))) ==
            m - Decoded(decode, RowsWith(t, namespace, ks, Dropped)).Keys
  {
    if ks == [] {
      assert m + map[] == m && m - {} == m;
    } else {
      var init, k := ks[..|ks| - 1], ks[|ks| - 1];
      RowsAppend(t, namespace, ks, Active);
      RowsAppend(t, namespace, ks, Dropped);
      var cs, change := PolicyChanges(decode, t, namespace, init), PolicyChange(decode, t, namespace, k);
      DecodedLists(decode, t, namespace, init, m);
      DecodedStep(decode, RowsWith(t, namespace, ks, EventOf(t, namespace, k).status), m);
      hide Replay, Updates, Drops, RowsWith, Decoded, Apply;
      if change != [] {
        SplitStep(m, cs, change[0]);
      } else {
        assert cs + change == cs;
      }
    }
  }

  /** The gateway's batch on a page of events is the page's drops, then its updates. */
  lemma GatewayBatch(decode: Decoder, t: Tables, namespace: string, ks: seq<Key>, active: Policies)
    requires AllLogged(t, namespace, ks)
    ensures
      var page, cs := PageOf(t, namespace, ks), PolicyChanges(decode, t, namespace, ks);
      AfterPage(decode, active, page.updated, page.dropped) == Replay(active, Drops(cs) + Updates(cs))
  {
    var cs := PolicyChanges(decode, t, namespace, ks);
    DecodedLists(decode, t, namespace, ks, active);
    DecodedLists(decode, t, namespace, ks, Replay(active, Drops(cs)));
    ReplayAppend(active, Drops(cs), Updates(cs));
  }

  /** Batched against sequential replay, for the gateway: equal exactly when every id that the page both
      updates and drops ends updated. */
  lemma GatewayBatchExact(decode: Decoder, t: Tables, namespace: string, ks: seq<Key>, active: Policies)
    requires AllLogged(t, namespace, ks)
    ensures
      var page, cs := PageOf(t, namespace, ks), PolicyChanges(decode, t, namespace, ks);
      AfterPage(decode, active, page.updated, page.dropped) == Replay(active, cs) <==> MixedEndsSet(cs)
  {
    GatewayBatch(decode, t, namespace, ks, active);
    DropsFirstExact(active, PolicyChanges(decode, t, namespace, ks));
  }

  // ----- the worker -----

  /** The change one event makes to the triggers, handled on its own; other messages than processes make none. */
  function TriggerChange(read: Reader, t: Tables, namespace: string, k: Key): seq<Change<Uuid, Trigger>>
    requires Logged(t, namespace, k)
  {
    var e := EventOf(t, namespace, k);
    if e.status == Dropped then [Unset(k.id)]
    else
      match read(e.content.spec)
      case Process(trigger) => [Set(k.id, trigger)]
      case _ => []
  }

  function TriggerChanges(read: Reader, t: Tables, namespace: string, ks: seq<Key>): seq<Change<Uuid, Trigger>>
    requires AllLogged(t, namespace, ks)
  {
    if ks == [] then []
    else TriggerChanges(read, t, namespace, ks[..|ks| - 1]) + TriggerChange(read, t, namespace, ks[|ks| - 1])
  }

  lemma {:induction false} UpdatedList(read: Reader, t: Tables, namespace: string, ks: seq<Key>, m: Triggers)
    requires AllLogged(t, namespace, ks)
    requires AllUpdated(read, m, RowsWith(t, namespace, ks, Active)).1 == Done
    ensures AllUpdated(read, m, RowsWith(t, namespace, ks, Active)).0 ==
            Replay(m, Updates(TriggerChanges(read, t, namespace, ks)))
  {
    if ks != [] {
      RowsAppend(t, namespace, ks, Active);
      if EventOf(t, namespace, ks[|ks| - 1]).status == Active {
        hide Replay, Updates, AllUpdated, Apply, RowsWith, TriggerChanges, EventOf;
        UpdatedStep(read, m, RowsWith(t, namespace, ks, Active));
        UpdatedList(read, t, namespace, ks[..|ks| - 1], m);
        UpdateAdds(read, t, namespace, ks, m);
      } else {
        hide Replay, Updates, AllUpdated, Apply, RowsWith, TriggerChanges, EventOf;
        UpdatedList(read, t, namespace, ks[..|ks| - 1], m);
        DropAddsNoUpdate(read, t, namespace, ks, m);
      }
    }
  }

  /** One more update that ends without an error comes after updates that did, and sets its trigger, if it has
      one. */
  lemma UpdatedStep(read: Reader, m: Triggers, rows: seq<Row>)
    requires rows != [] && AllUpdated(read, m, rows).1 == Done
    ensures
      var before, row := AllUpdated(read, m, rows[..|rows| - 1]), rows[|rows| - 1];
      && before.1 == Done
      && AllUpdated(read, m, rows).0 ==
         match read(row.content.spec)
         case Process(trigger) => before.0[row.id := trigger]
         case _ => before.0
  {
  }

  /** An ACTIVE event adds the setting of its trigger, if it has one. */
  lemma UpdateAdds(read: Reader, t: Tables, namespace: string, ks: seq<Key>, m: Triggers)
    requires AllLogged(t, namespace, ks) && ks != [] && EventOf(t, namespace, ks[|ks| - 1]).status == Active
    ensures
      var k := ks[|ks| - 1];
      var before := Replay(m, Updates(TriggerChanges(read, t, namespace, ks[..|ks| - 1])));
      Replay(m, Updates(TriggerChanges(read, t, namespace, ks))) ==
      match read(EventOf(t, namespace, k).content.spec)
      case Process(trigger) => before[k.id := trigger]
      case _ => before
  {
    hide Replay, Drops, Updates;
    var init := TriggerChanges(read, t, namespace, ks[..|ks| - 1]);
    var change := TriggerChange(read, t, namespace, ks[|ks| - 1]);
    if change == [] {
      assert init + change == init;
    } else {
      SplitStep(m, init, change[0]);
    }
  }

  /** A DROPPED event adds none. */
  lemma DropAddsNoUpdate(read: Reader, t: Tables, namespace: string, ks: seq<Key>, m: Triggers)
    requires AllLogged(t, namespace, ks) && ks != [] && EventOf(t, namespace, ks[|ks| - 1]).status != Active
    ensures Replay(m, Updates(TriggerChanges(read, t, namespace, ks))) ==
            Replay(m, Updates(TriggerChanges(read, t, namespace, ks[..|ks| - 1])))
  {
    hide Replay, Drops, Updates;
    SplitStep(m, TriggerChanges(read, t, namespace, ks[..|ks| - 1]), Unset(ks[|ks| - 1].id));
  }

  /** One more drop that ends without an error comes after drops that did, and unsets its id. */
  lemma RemovedStep(m: Triggers, rows: seq<Row>, fails: seq<bool>)
    requires rows != [] && |fails| == |rows| && AllRemoved(m, rows, fails).1 == Done
    ensures
      var before := AllRemoved(m, rows[..|rows| - 1], fails[..|rows| - 1]);
      before.1 == Done && AllRemoved(m, rows, fails).0 == Apply(before.0, Unset(rows[|rows| - 1].id))
  {
    var before := AllRemoved(m, rows[..|rows| - 1], fails[..|rows| - 1]).0;
    var id := rows[|rows| - 1].id;
    assert id !in before ==> before - {id} == before;
  }

  lemma {:induction false} RemovedList(read: Reader, t: Tables, namespace: string, ks: seq<Key>, m: Triggers,
      fails: seq<bool>)
    requires AllLogged(t, namespace, ks)
    requires |fails| == |RowsWith(t, namespace, ks, Dropped)|
    requires AllRemoved(m, RowsWith(t, namespace, ks, Dropped), fails).1 == Done
    ensures AllRemoved(m, RowsWith(t, namespace, ks, Dropped), fails).0 ==
            Replay(m, Drops(TriggerChanges(read, t, namespace, ks)))
  {
    if ks != [] {
      RowsAppend(t, namespace, ks, Dropped);
      if EventOf(t, namespace, ks[|ks| - 1]).status == Dropped {
        hide Replay, Drops, AllRemoved, Apply, RowsWith, TriggerChanges, EventOf;
        var rows := RowsWith(t, namespace, ks, Dropped);
        RemovedStep(m, rows, fails);
        RemovedList(read, t, namespace, ks[..|ks| - 1], m, fails[..|fails| - 1]);
        DropAdds(read, t, namespace, ks, m);
      } else {
        hide Replay, Drops, AllRemoved, Apply, RowsWith, TriggerChanges, EventOf;
        RemovedList(read, t, namespace, ks[..|ks| - 1], m, fails);
        UpdateAddsNoDrop(read, t, namespace, ks, m);
      }
    }
  }

  /** A DROPPED event adds the drop of its id. */
  lemma DropAdds(read: Reader, t: Tables, namespace: string, ks: seq<Key>, m: Triggers)
    requires AllLogged(t, namespace, ks) && ks != [] && EventOf(t, namespace, ks[|ks| - 1]).status == Dropped
    ensures Replay(m, Drops(TriggerChanges(read, t, namespace, ks))) ==
            Apply(Replay(m, Drops(TriggerChanges(read, t, namespace, ks[..|ks| - 1]))), Unset(ks[|ks| - 1].id))
  {
    hide Replay, Drops, Updates;
    SplitStep(m, TriggerChanges(read, t, namespace, ks[..|ks| - 1]), Unset(ks[|ks| - 1].id));
  }

  /** Any other event adds none. */
  lemma UpdateAddsNoDrop(read: Reader, t: Tables, namespace: string, ks: seq<Key>, m: Triggers)
    requires AllLogged(t, namespace, ks) && ks != [] && EventOf(t, namespace, ks[|ks| - 1]).status != Dropped
    ensures Replay(m, Drops(TriggerChanges(read, t, namespace, ks))) ==
            Replay(m, Drops(TriggerChanges(read, t, namespace, ks[..|ks| - 1])))
  {
    hide Replay, Drops, Updates;
    var init := TriggerChanges(read, t, namespace, ks[..|ks| - 1]);
    var change := TriggerChange(read, t, namespace, ks[|ks| - 1]);
    if change == [] {
      assert init + change == init;
    } else {
      SplitStep(m, init, change[0]);
    }
  }

  /** Batched against sequential replay, for the worker: when a page is handled without an error, its result
      is the replay exactly when every id that the page both updates and drops ends dropped. */
  lemma WorkerBatchExact(read: Reader, t: Tables, namespace: string, ks: seq<Key>, m: Triggers, fails: seq<bool>)
    requires AllLogged(t, namespace, ks)
    requires |fails| == |PageOf(t, namespace, ks).dropped|
    requires AllUpdated(read, m, PageOf(t, namespace, ks).updated).1 == Done
    requires
      var page := PageOf(t, namespace, ks);
      AllRemoved(AllUpdated(read, m, page.updated).0, page.dropped, fails).1 == Done
    ensures
      var page, cs := PageOf(t, namespace, ks), TriggerChanges(read, t, namespace, ks);
      AllRemoved(AllUpdated(read, m, page.updated).0, page.dropped, fails).0 == Replay(m, cs) <==> MixedEndsUnset(cs)
  {
    var page, cs := PageOf(t, namespace, ks), TriggerChanges(read, t, namespace, ks);
    UpdatedList(read, t, namespace, ks, m);
    RemovedList(read, t, namespace, ks, Replay(m, Updates(cs)), fails);
    ReplayAppend(m, Updates(cs), Drops(cs));
    UpdatesFirstExact(m, cs);
  }
}
