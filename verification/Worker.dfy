/**
 The worker: the triggers it keeps for the processes in the store, handled row by row.
 */
module Worker {
  import opened ResourceStore
  import opened Watch

  datatype IdSuffix = ExactSuffix(suffix: string) | SuffixBuilder(builder: int) | NoSuffix

  datatype OnDrop = OnDropAction(action: int) | NoOnDrop

  const ON_DROP_DO_NOTHING := 0
  const ON_DROP_CANCEL := 1
  const ON_DROP_TERMINATE := 2

  datatype Trigger = Trigger(name: string, idPrefix: string, idSuffix: IdSuffix, onDrop: OnDrop)

  /** A resource spec as the worker unmarshals it. */
  datatype Message = Malformed | NotAProcess | Process(trigger: Trigger)

  type Reader = Spec -> Message

  type Triggers = map<Uuid, Trigger>

  datatype Outcome = Done | Error

  function Updated(read: Reader, m: Triggers, row: Row): (Triggers, Outcome) {
    match read(row.content.spec)
    case Malformed => (m, Error)
    case NotAProcess => (m, Done)
    case Process(trigger) => (m[row.id := trigger], Done)
  }

  predicate HasWorkflowId(trigger: Trigger) {
    match trigger.idSuffix
    case ExactSuffix(_) => true
    case SuffixBuilder(builder) => 0 <= builder <= 2
    case NoSuffix => false
  }

  /** What dropping a trigger ends in, given whether the Temporal call fails with an error that is not recognised
      as not-found. */
  function DropOutcome(trigger: Trigger, temporalFails: bool): Outcome {
    if !HasWorkflowId(trigger) then Error
    else
      match trigger.onDrop
      case NoOnDrop => Error
      case OnDropAction(action) =>
        if (action == ON_DROP_CANCEL || action == ON_DROP_TERMINATE) && temporalFails then Error else Done
  }

  function Removed(m: Triggers, row: Row, temporalFails: bool): (Triggers, Outcome) {
    if row.id !in m then (m, Done) else (m - {row.id}, DropOutcome(m[row.id], temporalFails))
  }

  /** A list of updates, in order, up to the first error. */
  function AllUpdated(read: Reader, m: Triggers, rows: seq<Row>): (Triggers, Outcome) {
    if rows == [] then (m, Done)
    else
      var (m', o) := AllUpdated(read, m, rows[..|rows| - 1]);
      if o == Error then (m', Error) else Updated(read, m', rows[|rows| - 1])
  }

  /** A list of drops, in order, up to the first error; `fails` are Temporal's answers. */
  function AllRemoved(m: Triggers, rows: seq<Row>, fails: seq<bool>): (Triggers, Outcome)
    requires |fails| == |rows|
  {
    if rows == [] then (m, Done)
    else
      var (m', o) := AllRemoved(m, rows[..|rows| - 1], fails[..|rows| - 1]);
      if o == Error then (m', Error) else Removed(m', rows[|rows| - 1], fails[|rows| - 1])
  }

  class Worker {
    const read: Reader
    var triggers: Triggers

    constructor (read: Reader)
      ensures this.read == read && triggers == map[]
    {
      this.read, triggers := read, map[];
    }

    method OnUpdated(row: Row) returns (o: Outcome)
      modifies this
      ensures (triggers, o) == Updated(read, old(triggers), row)
    {
      var message := read(row.content.spec);
      if message.Malformed? {
        return Error;
      }
      if message.Process? {
        triggers := triggers[row.id := message.trigger];
      }
      o := Done;
    }

    method OnDropped(row: Row, temporalFails: bool) returns (o: Outcome)
      modifies this
      ensures (triggers, o) == Removed(old(triggers), row, temporalFails)
    {
      if row.id !in triggers {
        return Done;
      }
      var trigger := triggers[row.id];
      triggers := triggers - {row.id};
      o := DropOutcome(trigger, temporalFails);
    }

    /** One page of the stream: all its updates, then all its drops; an error ends it. */
    method HandlePage(updated: seq<Row>, dropped: seq<Row>, fails: seq<bool>) returns (o: Outcome)
      requires |fails| == |dropped|
      modifies this
      ensures
        var (m, first) := AllUpdated(read, old(triggers), updated);
        (triggers, o) == if first == Error then (m, Error) else AllRemoved(m, dropped, fails)
    {
      var i := 0;
      while i < |updated|
        invariant 0 <= i <= |updated|
        invariant AllUpdated(read, old(triggers), updated[..i]) == (triggers, Done)
      {
        assert updated[..i + 1][..i] == updated[..i];
        o := OnUpdated(updated[i]);
        if o == Error {
          AllUpdatedStops(read, old(triggers), updated, i + 1);
          return;
        }
        i := i + 1;
      }
      assert updated[..i] == updated;
      ghost var m := triggers;
      i := 0;
      while i < |dropped|
        invariant 0 <= i <= |dropped|
        invariant AllRemoved(m, dropped[..i], fails[..i]) == (triggers, Done)
      {
        assert dropped[..i + 1][..i] == dropped[..i] && fails[..i + 1][..i] == fails[..i];
        o := OnDropped(dropped[i], fails[i]);
        if o == Error {
          AllRemovedStops(m, dropped, fails, i + 1);
          return;
        }
        i := i + 1;
      }
      assert dropped[..i] == dropped && fails[..i] == fails;
      o := Done;
    }
  }

  lemma {:induction false} AllUpdatedStops(read: Reader, m: Triggers, rows: seq<Row>, i: nat)
    requires i <= |rows| && AllUpdated(read, m, rows[..i]).1 == Error
    ensures AllUpdated(read, m, rows) == AllUpdated(read, m, rows[..i])
    decreases |rows| - i
  {
    if i == |rows| {
      assert rows[..i] == rows;
    } else {
      assert rows[..i + 1][..i] == rows[..i];
      AllUpdatedStops(read, m, rows, i + 1);
    }
  }

  lemma {:induction false} AllRemovedStops(m: Triggers, rows: seq<Row>, fails: seq<bool>, i: nat)
    requires i <= |rows| == |fails| && AllRemoved(m, rows[..i], fails[..i]).1 == Error
    ensures AllRemoved(m, rows, fails) == AllRemoved(m, rows[..i], fails[..i])
    decreases |rows| - i
  {
    if i == |rows| {
      assert rows[..i] == rows && fails[..i] == fails;
    } else {
      assert rows[..i + 1][..i] == rows[..i] && fails[..i + 1][..i] == fails[..i];
      AllRemovedStops(m, rows, fails, i + 1);
    }
  }
}
