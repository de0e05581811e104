/**
 Runs of gateway batches: whether the matchers stay in line with the active policies.
 */
module GatewayBatches {
  import opened Wrappers
  import opened ResourceStore
  import opened Matcher
  import opened SourceMatching
  import opened Gateway

  /** No two active policies are filed under one key. */
  ghost predicate DistinctKeys(active: Policies) {
    forall i, j :: i in active && j in active && i != j && Sourced(active[i]) && Sourced(active[j]) ==>
                     KeyOf(active[i]) != KeyOf(active[j])
  }

  /** Each active policy is what the matchers hold at its own key. */
  ghost predicate Complete(s: Routing) {
    forall id :: id in s.active && Sourced(s.active[id]) ==> Get(s.table, KeyOf(s.active[id])) == Some(s.active[id])
  }

  /** The matchers hold nothing under any other key. */
  ghost predicate NothingElse(s: Routing) {
    s.table.Keys <= KeysFor(s.active, s.active.Keys)
  }

  lemma BatchComplete(s: Routing, b: Batch, s': Routing)
    requires Applied(s, b, s') && Complete(s) && DistinctKeys(s.active) && DistinctKeys(s'.active)
    ensures Complete(s')
  {
    var dropped, added := KeysFor(s.active, b.dropped), KeysFor(b.updated, b.updated.Keys);
    forall id | id in s'.active && Sourced(s'.active[id])
      ensures Get(s'.table, KeyOf(s'.active[id])) == Some(s'.active[id])
    {
      var k := KeyOf(s'.active[id]);
      if id in b.updated {
        assert k in added;
        assert FiledAs(b.updated, b.updated.Keys, k, s'.table[k]);
        var writer :| writer in b.updated && Sourced(b.updated[writer]) && KeyOf(b.updated[writer]) == k &&
            b.updated[writer] == s'.table[k];
        assert s'.active[writer] == b.updated[writer];
        assert writer == id;
      } else {
        assert k !in dropped;
        forall other | other in b.updated && Sourced(b.updated[other])
          ensures KeyOf(b.updated[other]) != k
        {
          assert s'.active[other] == b.updated[other];
        }
        assert k !in added;
        assert k in (s.table - dropped).Keys;
      }
    }
  }

  /** The ids that a batch updates in place, without dropping them first. */
  ghost function InPlace(s: Routing, b: Batch): set<Uuid> {
    set id | id in b.updated && id in s.active && id !in b.dropped
  }

  /** With the matchers exactly in line before a batch, they are exactly in line after it if and only if
      every key that an update moves a policy away from is taken by another active policy. */
  lemma BatchNothingElse(s: Routing, b: Batch, s': Routing)
    requires Applied(s, b, s') && Complete(s) && NothingElse(s) && DistinctKeys(s.active)
    ensures NothingElse(s') <==> KeysFor(s.active, InPlace(s, b)) <= KeysFor(s'.active, s'.active.Keys)
  {
    var dropped, added := KeysFor(s.active, b.dropped), KeysFor(b.updated, b.updated.Keys);
    var moved, now := KeysFor(s.active, InPlace(s, b)), KeysFor(s'.active, s'.active.Keys);
    assert s'.table.Keys == (s.table.Keys - dropped) + added;
    forall k | k in added
      ensures k in now
    {
      var id :| id in b.updated && Sourced(b.updated[id]) && KeyOf(b.updated[id]) == k;
      assert s'.active[id] == b.updated[id];
    }
    forall k | k in moved
      ensures k in s'.table
    {
      var id :| id in InPlace(s, b) && Sourced(s.active[id]) && KeyOf(s.active[id]) == k;
      assert Get(s.table, k).Some?;
      assert k !in dropped;
    }
    forall k | k in s.table && k !in dropped && k !in moved
      ensures k in now
    {
      assert k in KeysFor(s.active, s.active.Keys);
      var id :| id in s.active && Sourced(s.active[id]) && KeyOf(s.active[id]) == k;
      assert id !in b.dropped && id !in InPlace(s, b);
      assert s'.active[id] == s.active[id];
    }
  }

  /** A run of batches from an empty gateway, with distinct keys throughout. */
  ghost predicate IsRun(states: seq<Routing>, batches: seq<Batch>) {
    && |states| == |batches| + 1
    && states[0] == Routing(map[], map[], {})
    && (forall i :: 0 <= i < |batches| ==> Applied(states[i], batches[i], states[i + 1]))
    && (forall i :: 0 <= i < |states| ==> DistinctKeys(states[i].active))
  }

  /** Batches keep routing complete: whatever the iteration orders, swaps and reuse of keys, each active
      policy stays reachable at its own key through every run. */
  lemma {:induction false} RunComplete(states: seq<Routing>, batches: seq<Batch>)
    requires IsRun(states, batches)
    ensures Complete(states[|batches|])
    decreases |batches|
  {
    if batches != [] {
      var n := |batches| - 1;
      RunComplete(states[..n + 1], batches[..n]);
      assert states[..n + 1][n] == states[n];
      BatchComplete(states[n], batches[n], states[n + 1]);
    }
  }

  /** No update of the batch moves an active policy to another key. */
  ghost predicate MovesNothing(s: Routing, b: Batch) {
    forall id :: id in InPlace(s, b) && Sourced(s.active[id]) ==>
                   Sourced(b.updated[id]) && KeyOf(b.updated[id]) == KeyOf(s.active[id])
  }

  /** If no update ever changes a key, the matchers hold the active policies and nothing else. */
  lemma {:induction false} RunExact(states: seq<Routing>, batches: seq<Batch>)
    requires IsRun(states, batches)
    requires forall i :: 0 <= i < |batches| ==> MovesNothing(states[i], batches[i])
    ensures NothingElse(states[|batches|]) && Complete(states[|batches|])
    decreases |batches|
  {
    RunComplete(states, batches);
    if batches != [] {
      var n := |batches| - 1;
      var s, b, s' := states[n], batches[n], states[n + 1];
      RunExact(states[..n + 1], batches[..n]);
      assert states[..n + 1][n] == s;
      BatchNothingElse(s, b, s');
      forall k | k in KeysFor(s.active, InPlace(s, b))
        ensures k in KeysFor(s'.active, s'.active.Keys)
      {
        var id :| id in InPlace(s, b) && Sourced(s.active[id]) && KeyOf(s.active[id]) == k;
        assert s'.active[id] == b.updated[id];
      }
    }
  }

  /** The prefix paths that an HTTP match goes by are exactly those that some batch of the run brought in, whatever
      was dropped since. */
  lemma {:induction false} RunPaths(states: seq<Routing>, batches: seq<Batch>, path: string)
    requires IsRun(states, batches)
    ensures path in states[|batches|].paths <==>
            exists i :: 0 <= i < |batches| && path in PathsFor(batches[i].updated, batches[i].updated.Keys)
    decreases |batches|
  {
    if batches != [] {
      var n := |batches| - 1;
      RunPaths(states[..n + 1], batches[..n], path);
      assert states[..n + 1][n] == states[n];
      assert forall i :: 0 <= i < n ==> batches[..n][i] == batches[i];
      assert Applied(states[n], batches[n], states[n + 1]);
      hide Applied, PathsFor, IsRun;
    }
  }

  /** A complete gateway serves each exact policy at the very source it names. */
  lemma CompleteIsServed(s: Routing, f: Flat, id: Uuid)
    requires Complete(s) && f.table == s.table
    requires id in s.active
    ensures
      match s.active[id].source
      case Grpc(name, true) => FlatGrpcMatch(f, name) == Some(s.active[id])
      case Http(verb, path, true) => verb != 0 ==> FlatHttpMatch(f, path, HttpMethodName(verb)) == Some(s.active[id])
      case _ => true
  {
    if Sourced(s.active[id]) {
      assert Get(s.table, KeyOf(s.active[id])) == Some(s.active[id]);
    }
  }
}
