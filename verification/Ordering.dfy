/**
 Ascending listings of finite sets under a strict total order, as a sorted query or a
 sorted key slice returns them.
 */
module Ordering {

  ghost predicate StrictTotal<T(!new)>(less: (T, T) -> bool) {
    && (forall x :: !less(x, x))
    && (forall x, y :: less(x, y) || less(y, x) || x == y)
    && (forall x, y, z :: less(x, y) && less(y, z) ==> less(x, z))
  }

  predicate Increasing<T>(less: (T, T) -> bool, s: seq<T>) {
    forall i, j :: 0 <= i < j < |s| ==> less(s[i], s[j])
  }

  function Elements<T>(s: seq<T>): set<T> {
    set x | x in s
  }

  predicate IsLeast<T(==)>(less: (T, T) -> bool, x: T, xs: set<T>) {
    x in xs && forall y :: y in xs ==> y == x || less(x, y)
  }

  lemma {:induction false} LeastExists<T(!new)>(less: (T, T) -> bool, xs: set<T>)
    requires StrictTotal(less)
    requires xs != {}
    ensures exists x :: IsLeast(less, x, xs)
    decreases |xs|
  {
    var y :| y in xs;
    if xs == {y} {
      assert IsLeast(less, y, xs);
    } else {
      var rest := xs - {y};
      assert rest != {};
      LeastExists(less, rest);
      var x :| IsLeast(less, x, rest);
      if less(x, y) {
        assert IsLeast(less, x, xs);
      } else {
        assert IsLeast(less, y, xs);
      }
    }
  }

  lemma PrependLeast<T(!new)>(less: (T, T) -> bool, xs: set<T>, x: T, s: seq<T>)
    requires StrictTotal(less)
    requires IsLeast(less, x, xs)
    requires Increasing(less, s) && Elements(s) == xs - {x} && |s| == |xs - {x}|
    ensures Increasing(less, [x] + s) && Elements([x] + s) == xs && |[x] + s| == |xs|
  {
    var r := [x] + s;
    forall i, j | 0 <= i < j < |r|
      ensures less(r[i], r[j])
    {
      if i == 0 {
        assert r[j] in Elements(s);
      }
    }
    forall y: T
      ensures y in Elements(r) <==> y in xs
    {
      assert y in s <==> y in Elements(s);
    }
  }

  /** `s` lists the elements of `xs`, each once, in ascending order. */
  ghost predicate IsAscending<T>(less: (T, T) -> bool, xs: set<T>, s: seq<T>) {
    Increasing(less, s) && Elements(s) == xs && |s| == |xs|
  }

  /** Sorts a set by taking its least element out again and again. */
  function Sort<T(!new, ==)>(less: (T, T) -> bool, xs: set<T>): (s: seq<T>)
    requires StrictTotal(less)
    ensures IsAscending(less, xs, s)
    decreases |xs|
  {
    if xs == {} then []
    else
      LeastExists(less, xs);
      var x :| x in xs && IsLeast(less, x, xs);
      PrependLeast(less, xs, x, Sort(less, xs - {x}));
      [x] + Sort(less, xs - {x})
  }

  /** The ascending listing of `xs`. */
  ghost function Ascending<T(!new)>(less: (T, T) -> bool, xs: set<T>): (s: seq<T>)
    requires StrictTotal(less)
    ensures IsAscending(less, xs, s)
  {
    assert IsAscending(less, xs, Sort(less, xs));
    var s :| IsAscending(less, xs, s);
    s
  }

  /** An ascending listing is determined by its elements. */
  lemma {:induction false} AscendingUnique<T(!new)>(less: (T, T) -> bool, s: seq<T>, t: seq<T>)
    requires StrictTotal(less)
    requires Increasing(less, s) && Increasing(less, t) && Elements(s) == Elements(t)
    ensures s == t
  {
    assert |s| > 0 ==> s[0] in Elements(s);
    assert |t| > 0 ==> t[0] in Elements(t);
    if s != [] {
      assert s[0] in Elements(t);
      assert t != [] && t[0] in Elements(s);
      var i :| 0 <= i < |t| && t[i] == s[0];
      var j :| 0 <= j < |s| && s[j] == t[0];
      assert s[0] == t[0];
      assert forall x :: x in Elements(s[1..]) <==> x in Elements(s) && x != s[0] by {
        TailElements(less, s);
      }
      assert forall x :: x in Elements(t[1..]) <==> x in Elements(t) && x != t[0] by {
        TailElements(less, t);
      }
      AscendingUnique(less, s[1..], t[1..]);
    }
  }

  lemma TailElements<T(!new)>(less: (T, T) -> bool, s: seq<T>)
    requires StrictTotal(less)
    requires Increasing(less, s) && s != []
    ensures forall x :: x in Elements(s[1..]) <==> x in Elements(s) && x != s[0]
  {
    assert s == [s[0]] + s[1..];
  }

  /** Whatever is sorted in ascending order is the ascending listing. */
  lemma SortIsAscending<T(!new)>(less: (T, T) -> bool, xs: set<T>, s: seq<T>)
    requires StrictTotal(less)
    requires Increasing(less, s) && Elements(s) == xs
    ensures s == Ascending(less, xs)
  {
    AscendingUnique(less, s, Ascending(less, xs));
  }

  /** The elements above one of a listing are the part of the listing behind it. */
  lemma Behind<T(!new)>(less: (T, T) -> bool, s: seq<T>, n: nat, t: seq<T>)
    requires StrictTotal(less)
    requires Increasing(less, s) && Increasing(less, t) && 0 < n <= |s|
    requires forall x :: x in t <==> x in s && less(s[n - 1], x)
    ensures t == s[n..]
  {
    forall x: T
      ensures x in Elements(t) <==> x in Elements(s[n..])
    {
      if x in t {
        var i :| 0 <= i < |s| && s[i] == x;
        assert s[n..][i - n] == x;
      }
      if x in s[n..] {
        var i :| 0 <= i < |s[n..]| && s[n..][i] == x;
        assert s[n + i] == x && less(s[n - 1], s[n + i]);
      }
    }
    AscendingUnique(less, t, s[n..]);
  }
}
