/** The order of strings, character by character, as a library sort uses it. */
module Strings {
  import opened Ordering

  predicate StringLess(a: string, b: string) {
    if b == [] then false
    else if a == [] then true
    else if a[0] != b[0] then a[0] < b[0]
    else StringLess(a[1..], b[1..])
  }

  lemma {:induction false} Irreflexive(a: string)
    ensures !StringLess(a, a)
  {
    if a != [] {
      Irreflexive(a[1..]);
    }
  }

  lemma {:induction false} Comparable(a: string, b: string)
    ensures StringLess(a, b) || StringLess(b, a) || a == b
  {
    if a != [] && b != [] && a[0] == b[0] {
      Comparable(a[1..], b[1..]);
      assert a == [a[0]] + a[1..] && b == [b[0]] + b[1..];
    }
  }

  lemma {:induction false} Transitive(a: string, b: string, c: string)
    requires StringLess(a, b) && StringLess(b, c)
    ensures StringLess(a, c)
  {
    if a != [] && a[0] == b[0] == c[0] {
      Transitive(a[1..], b[1..], c[1..]);
    }
  }

  lemma StringOrder()
    ensures StrictTotal(StringLess)
  {
    forall a, b, c
      ensures !StringLess(a, a)
      ensures StringLess(a, b) || StringLess(b, a) || a == b
      ensures StringLess(a, b) && StringLess(b, c) ==> StringLess(a, c)
    {
      Irreflexive(a);
      Comparable(a, b);
      if StringLess(a, b) && StringLess(b, c) {
        Transitive(a, b, c);
      }
    }
  }

  /** The strings agree before position `i`, and there the first has the smaller character. */
  predicate SmallerAt(a: string, b: string, i: nat) {
    i < |a| && i < |b| && a[..i] == b[..i] && a[i] < b[i]
  }

  /** The order is the lexicographic one: a proper prefix comes first, and otherwise the first character that differs
      decides. */
  lemma {:induction false} Lexicographic(a: string, b: string)
    ensures StringLess(a, b) <==> a < b || exists i :: SmallerAt(a, b, i)
  {
    if a != [] && b != [] {
      var a', b' := a[1..], b[1..];
      assert a == [a[0]] + a' && b == [b[0]] + b';
      if a[0] == b[0] {
        Lexicographic(a', b');
        assert a < b <==> a' < b';
        forall i: nat
          ensures SmallerAt(a', b', i) <==> SmallerAt(a, b, i + 1)
        {
          if i < |a'| && i < |b'| {
            assert a[..i + 1] == [a[0]] + a'[..i] && b[..i + 1] == [b[0]] + b'[..i];
            assert a'[..i] == a[..i + 1][1..] && b'[..i] == b[..i + 1][1..];
          }
        }
        if i: nat :| SmallerAt(a, b, i) {
          assert i > 0 && SmallerAt(a', b', i - 1);
        }
      } else {
        assert SmallerAt(a, b, 0) <==> a[0] < b[0];
        forall i: nat | i > 0
          ensures !SmallerAt(a, b, i)
        {
          assert i <= |a| && i <= |b| ==> a[..i][0] != b[..i][0];
        }
      }
    }
  }

  /** The keys of a map, each once, in ascending order. */
  ghost function SortedKeys<V>(m: map<string, V>): seq<string> {
    StringOrder();
    Ascending(StringLess, m.Keys)
  }

  /** Collects the keys in whatever order the map yields them, then sorts them. */
  method SortStringKeys<V>(m: map<string, V>) returns (keys: seq<string>)
    ensures keys == SortedKeys(m)
  {
    keys := [];
    var todo := m.Keys;
    while todo != {}
      invariant todo <= m.Keys && Elements(keys) == m.Keys - todo
      decreases todo
    {
      var key :| key in todo;
      todo := todo - {key};
      assert Elements(keys + [key]) == Elements(keys) + {key};
      keys := keys + [key];
    }
    StringOrder();
    keys := Sort(StringLess, Elements(keys));
    SortIsAscending(StringLess, m.Keys, keys);
  }
}
