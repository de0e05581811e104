/**
 Replicas kept by replaying a stream of changes.

 The store's event log, the gateway's policies and the worker's triggers are all
 maps that change one key at a time.  This module states what replaying a sequence
 of changes means, and when handing a page over as two separate lists, updates and
 drops, still gives the result of replaying it event by event.
 */
module Changes {
  import opened Wrappers

  datatype Change<K, V> = Set(key: K, value: V) | Unset(key: K)

  function Apply<K, V>(m: map<K, V>, c: Change<K, V>): map<K, V> {
    match c
    case Set(k, v) => m[k := v]
    case Unset(k) => m - {k}
  }

  /** The map after replaying `cs` on `m`, in order. */
  function Replay<K, V>(m: map<K, V>, cs: seq<Change<K, V>>): map<K, V> {
    if cs == [] then m else Apply(Replay(m, cs[..|cs| - 1]), cs[|cs| - 1])
  }

  /** The last change of `cs` that concerns `k`. */
  function Last<K(==), V>(cs: seq<Change<K, V>>, k: K): Option<Change<K, V>> {
    if cs == [] then None
    else if cs[|cs| - 1].key == k then Some(cs[|cs| - 1])
    else Last(cs[..|cs| - 1], k)
  }

  /** What a change leaves under its key. */
  function Left<K, V>(c: Change<K, V>): Option<V> {
    match c
    case Set(_, v) => Some(v)
    case Unset(_) => None
  }

  /** Replay is decided key by key, by the last change on the key. */
  lemma {:induction false} ReplayAt<K, V>(m: map<K, V>, cs: seq<Change<K, V>>, k: K)
    ensures Get(Replay(m, cs), k) == (if Last(cs, k).Some? then Left(Last(cs, k).value) else Get(m, k))
  {
    if cs != [] {
      ReplayAt(m, cs[..|cs| - 1], k);
    }
  }

  lemma ReplayOneMore<K, V>(m: map<K, V>, cs: seq<Change<K, V>>, c: Change<K, V>)
    ensures Replay(m, cs + [c]) == Apply(Replay(m, cs), c)
  {
    assert (cs + [c])[..|cs|] == cs;
  }

  lemma {:induction false} ReplayAppend<K, V>(m: map<K, V>, a: seq<Change<K, V>>, b: seq<Change<K, V>>)
    ensures Replay(m, a + b) == Replay(Replay(m, a), b)
  {
    if b == [] {
      assert a + b == a;
    } else {
      assert (a + b)[..|a + b| - 1] == a + b[..|b| - 1];
      ReplayAppend(m, a, b[..|b| - 1]);
    }
  }

  lemma {:induction false} LastAppend<K, V>(a: seq<Change<K, V>>, b: seq<Change<K, V>>, k: K)
    ensures Last(a + b, k) == (if Last(b, k).Some? then Last(b, k) else Last(a, k))
  {
    if b == [] {
      assert a + b == a;
    } else {
      assert (a + b)[..|a + b| - 1] == a + b[..|b| - 1];
      LastAppend(a, b[..|b| - 1], k);
    }
  }

  /** Two changes on different keys can be replayed in either order. */
  lemma StepsCommute<K, V>(m: map<K, V>, c: Change<K, V>, d: Change<K, V>)
    requires c.key != d.key
    ensures Apply(Apply(m, c), d) == Apply(Apply(m, d), c)
  {
    assert forall k :: Get(Apply(Apply(m, c), d), k) == Get(Apply(Apply(m, d), c), k);
    assert Apply(Apply(m, c), d).Keys == Apply(Apply(m, d), c).Keys;
  }

  /** The updates of a page, in page order. */
  function Updates<K, V>(cs: seq<Change<K, V>>): seq<Change<K, V>> {
    if cs == [] then []
    else Updates(cs[..|cs| - 1]) + if cs[|cs| - 1].Set? then [cs[|cs| - 1]] else []
  }

  /** The drops of a page, in page order. */
  function Drops<K, V>(cs: seq<Change<K, V>>): seq<Change<K, V>> {
    if cs == [] then []
    else Drops(cs[..|cs| - 1]) + if cs[|cs| - 1].Unset? then [cs[|cs| - 1]] else []
  }

  /** `k` is both set and unset in `cs`. */
  ghost predicate Mixed<K, V>(cs: seq<Change<K, V>>, k: K) {
    (exists c :: c in cs && c.Set? && c.key == k) && (exists c :: c in cs && c.Unset? && c.key == k)
  }

  ghost predicate MixedEndsSet<K(!new), V>(cs: seq<Change<K, V>>) {
    forall k :: Mixed(cs, k) ==> Last(cs, k).Some? && Last(cs, k).value.Set?
  }

  ghost predicate MixedEndsUnset<K(!new), V>(cs: seq<Change<K, V>>) {
    forall k :: Mixed(cs, k) ==> Last(cs, k).Some? && Last(cs, k).value.Unset?
  }

  lemma {:induction false} LastMember<K, V>(cs: seq<Change<K, V>>, k: K)
    ensures Last(cs, k).Some? <==> exists c :: c in cs && c.key == k
    ensures Last(cs, k).Some? ==> Last(cs, k).value in cs && Last(cs, k).value.key == k
  {
    if cs != [] {
      var init, last := cs[..|cs| - 1], cs[|cs| - 1];
      LastMember(init, k);
      assert cs == init + [last];
    }
  }

  lemma {:induction false} UpdatesMember<K, V>(cs: seq<Change<K, V>>)
    ensures forall c :: c in Updates(cs) <==> c in cs && c.Set?
    ensures forall c :: c in Drops(cs) <==> c in cs && c.Unset?
  {
    if cs != [] {
      var init, last := cs[..|cs| - 1], cs[|cs| - 1];
      UpdatesMember(init);
      assert cs == init + [last];
    }
  }

  /** Splitting a page keeps, on each side, the last change it had on a key. */
  lemma {:induction false} LastSplit<K, V>(cs: seq<Change<K, V>>, k: K)
    ensures Last(cs, k).Some? && Last(cs, k).value.Set? ==> Last(Updates(cs), k) == Last(cs, k)
    ensures Last(cs, k).Some? && Last(cs, k).value.Unset? ==> Last(Drops(cs), k) == Last(cs, k)
  {
    if cs != [] {
      var init, last := cs[..|cs| - 1], cs[|cs| - 1];
      LastSplit(init, k);
      var u, d := if last.Set? then [last] else [], if last.Unset? then [last] else [];
      LastAppend(Updates(init), u, k);
      LastAppend(Drops(init), d, k);
    }
  }

  /** Every key both set and unset in a page is touched in both halves, and in no other case. */
  lemma MixedSplit<K, V>(cs: seq<Change<K, V>>, k: K)
    ensures Mixed(cs, k) <==> Last(Updates(cs), k).Some? && Last(Drops(cs), k).Some?
    ensures Last(Updates(cs), k).Some? ==> Last(Updates(cs), k).value.Set?
    ensures Last(Drops(cs), k).Some? ==> Last(Drops(cs), k).value.Unset?
    ensures Last(cs, k).None? <==> Last(Updates(cs), k).None? && Last(Drops(cs), k).None?
  {
    LastMember(cs, k);
    LastMember(Updates(cs), k);
    LastMember(Drops(cs), k);
    UpdatesMember(cs);
    if Last(cs, k).Some? {
      var c := Last(cs, k).value;
      assert c in Updates(cs) || c in Drops(cs);
    }
    assert Last(Updates(cs), k).Some? ==> Last(Updates(cs), k).value in cs;
    assert Last(Drops(cs), k).Some? ==> Last(Drops(cs), k).value in cs;
  }

  /** A page applied drops first equals its replay exactly when no mixed key ends unset. */
  lemma DropsFirstExact<K(!new), V>(m: map<K, V>, cs: seq<Change<K, V>>)
    ensures Replay(m, Drops(cs) + Updates(cs)) == Replay(m, cs) <==> MixedEndsSet(cs)
  {
    var split, whole := Replay(m, Drops(cs) + Updates(cs)), Replay(m, cs);
    forall k: K
      ensures Get(split, k) == Get(whole, k) <==> (Mixed(cs, k) ==> Last(cs, k).Some? && Last(cs, k).value.Set?)
    {
      ReplayAt(m, cs, k);
      ReplayAt(m, Drops(cs) + Updates(cs), k);
      LastAppend(Drops(cs), Updates(cs), k);
      LastSplit(cs, k);
      MixedSplit(cs, k);
    }
    if MixedEndsSet(cs) {
      SameMap(split, whole);
    }
  }

  /** A page applied updates first equals its replay exactly when no mixed key ends set. */
  lemma UpdatesFirstExact<K(!new), V>(m: map<K, V>, cs: seq<Change<K, V>>)
    ensures Replay(m, Updates(cs) + Drops(cs)) == Replay(m, cs) <==> MixedEndsUnset(cs)
  {
    var split, whole := Replay(m, Updates(cs) + Drops(cs)), Replay(m, cs);
    forall k: K
      ensures Get(split, k) == Get(whole, k) <==> (Mixed(cs, k) ==> Last(cs, k).Some? && Last(cs, k).value.Unset?)
    {
      ReplayAt(m, cs, k);
      ReplayAt(m, Updates(cs) + Drops(cs), k);
      LastAppend(Updates(cs), Drops(cs), k);
      LastSplit(cs, k);
      MixedSplit(cs, k);
    }
    if MixedEndsUnset(cs) {
      SameMap(split, whole);
    }
  }
}
