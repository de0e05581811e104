/** When the worker handles a page without an error, and what it then holds, told from the rows of the page. */
module WorkerPages {
  import opened Wrappers
  import opened ResourceStore
  import opened Watch
  import opened Worker

  // ----- updates -----

  predicate Readable(read: Reader, row: Row) {
    !read(row.content.spec).Malformed?
  }

  /** The trigger of the last row of an id that is a process. */
  function LastProcess(read: Reader, rows: seq<Row>, id: Uuid): Option<Trigger> {
    if rows == [] then None
    else
      var last := rows[|rows| - 1];
      if last.id == id && read(last.content.spec).Process? then Some(read(last.content.spec).trigger)
      else LastProcess(read, rows[..|rows| - 1], id)
  }

  /** A list of updates ends without an error if and only if all its rows can be read. */
  lemma {:induction false} UpdatesDone(read: Reader, m: Triggers, rows: seq<Row>)
    ensures AllUpdated(read, m, rows).1 == Done <==> forall i :: 0 <= i < |rows| ==> Readable(read, rows[i])
  {
    if rows != [] {
      var init := rows[..|rows| - 1];
      UpdatesDone(read, m, init);
      assert forall i :: 0 <= i < |init| ==> init[i] == rows[i];
    }
  }

  /** Then each id has the trigger of its last process, or the one it had. */
  lemma {:induction false} UpdatesLeave(read: Reader, m: Triggers, rows: seq<Row>, id: Uuid)
    requires AllUpdated(read, m, rows).1 == Done
    ensures Get(AllUpdated(read, m, rows).0, id) ==
            if LastProcess(read, rows, id).Some? then LastProcess(read, rows, id) else Get(m, id)
  {
    if rows != [] {
      UpdatesLeave(read, m, rows[..|rows| - 1], id);
    }
  }

  // ----- drops -----

  /** Dropping a trigger ends without an error: its workflow has an id, an action is given, and where the action is to
      cancel (1) or terminate (2) the workflow, that does not fail. */
  predicate GoesWell(trigger: Trigger, temporalFails: bool) {
    && (trigger.idSuffix.ExactSuffix? || (trigger.idSuffix.SuffixBuilder? && trigger.idSuffix.builder in {0, 1, 2}))
    && trigger.onDrop.OnDropAction?
    && (trigger.onDrop.action == 1 || trigger.onDrop.action == 2 ==> !temporalFails)
  }

  /** The row is the first of its id in the list. */
  predicate FirstOfId(rows: seq<Row>, i: nat) {
    i < |rows| && forall j :: 0 <= j < i ==> rows[j].id != rows[i].id
  }

  /** If the row is the first of an id that has a trigger, that one is dropped without an error. */
  ghost predicate GoesWellAt(m: Triggers, rows: seq<Row>, fails: seq<bool>, i: nat)
    requires |fails| == |rows| && i < |rows|
  {
    FirstOfId(rows, i) && rows[i].id in m ==> GoesWell(m[rows[i].id], fails[i])
  }

  /** Every drop of the list ends without an error. */
  ghost predicate DropsGoWell(m: Triggers, rows: seq<Row>, fails: seq<bool>)
    requires |fails| == |rows|
  {
    forall i: nat :: i < |rows| ==> GoesWellAt(m, rows, fails, i)
  }

  function Ids(rows: seq<Row>): set<Uuid> {
    set i | 0 <= i < |rows| :: rows[i].id
  }

  lemma IdsMore(rows: seq<Row>)
    requires rows != []
    ensures Ids(rows) == Ids(rows[..|rows| - 1]) + {rows[|rows| - 1].id}
    ensures FirstOfId(rows, |rows| - 1) <==> rows[|rows| - 1].id !in Ids(rows[..|rows| - 1])
  {
    var init := rows[..|rows| - 1];
    assert forall i :: 0 <= i < |init| ==> init[i] == rows[i];
  }

  lemma DropsGoWellMore(m: Triggers, rows: seq<Row>, fails: seq<bool>)
    requires rows != [] && |fails| == |rows|
    ensures
      var n := |rows| - 1;
      DropsGoWell(m, rows, fails) <==> DropsGoWell(m, rows[..n], fails[..n]) && GoesWellAt(m, rows, fails, n)
  {
    hide GoesWell;
    var n := |rows| - 1;
    forall i: nat | i < n
      ensures GoesWellAt(m, rows[..n], fails[..n], i) <==> GoesWellAt(m, rows, fails, i)
    {
      assert FirstOfId(rows[..n], i) <==> FirstOfId(rows, i);
    }
    hide GoesWellAt;
  }

  /** A list of drops ends without an error if and only if each id that has a trigger can be dropped where it comes
      first; and then just the ids of the list are gone. */
  lemma {:induction false} DropsDone(m: Triggers, rows: seq<Row>, fails: seq<bool>)
    requires |fails| == |rows|
    ensures AllRemoved(m, rows, fails).1 == Done <==> DropsGoWell(m, rows, fails)
    ensures AllRemoved(m, rows, fails).1 == Done ==> AllRemoved(m, rows, fails).0 == m - Ids(rows)
  {
    if rows == [] {
      assert Ids(rows) == {} && m - {} == m;
    } else {
      var n := |rows| - 1;
      DropsDone(m, rows[..n], fails[..n]);
      DropsGoWellMore(m, rows, fails);
      IdsMore(rows);
      if AllRemoved(m, rows[..n], fails[..n]).1 == Done {
        RemovedTold(m, Ids(rows[..n]), rows[n], fails[n]);
      }
      hide DropsGoWell, Ids, FirstOfId, GoesWell, Removed;
    }
  }

  lemma RemovedTold(m: Triggers, gone: set<Uuid>, row: Row, fails: bool)
    ensures Removed(m - gone, row, fails).0 == m - (gone + {row.id})
    ensures Removed(m - gone, row, fails).1 == Done <==>
            (row.id !in gone && row.id in m ==> GoesWell(m[row.id], fails))
  {
  }

  // ----- pages -----

  /** A page is handled without an error if and only if all updates can be read and all drops go well with the triggers
      that the updates leave; and then an id has no trigger if the page drops it, and else that of its last process
      on the page, or the one it had. */
  lemma PageDone(read: Reader, m: Triggers, updated: seq<Row>, dropped: seq<Row>, fails: seq<bool>, id: Uuid)
    requires |fails| == |dropped|
    ensures
      var (after, o) := AllUpdated(read, m, updated);
      var page := if o == Error then (after, Error) else AllRemoved(after, dropped, fails);
      && (page.1 == Done <==>
            && (forall i :: 0 <= i < |updated| ==> Readable(read, updated[i]))
            && DropsGoWell(after, dropped, fails))
      && (o == Done ==>
            Get(after, id) ==
            if LastProcess(read, updated, id).Some? then LastProcess(read, updated, id) else Get(m, id))
      && (page.1 == Done ==> Get(page.0, id) == if id in Ids(dropped) then None else Get(after, id))
  {
    UpdatesDone(read, m, updated);
    var (after, o) := AllUpdated(read, m, updated);
    if o == Done {
      UpdatesLeave(read, m, updated, id);
      DropsDone(after, dropped, fails);
    }
    hide AllUpdated, AllRemoved, DropsGoWell, LastProcess;
  }
}
