/**
 When the pages of a snapshot hold every row exactly once, although each query may order the rows of one version
 anew: exactly when no page ends between two rows of one version.
 */
module SnapshotCoverage {
  import opened Ordering
  import opened ResourceStore
  import opened Watch

  type Cache = map<Uuid, CacheRow>

  ghost predicate AllDistinct<T>(s: seq<T>) {
    forall i, j :: 0 <= i < j < |s| ==> s[i] != s[j]
  }

  /** Every row of the cache, exactly once. */
  ghost predicate CoversOnce(cache: Cache, ids: seq<Uuid>) {
    Elements(ids) == cache.Keys && AllDistinct(ids)
  }

  /** The rows up to a version. */
  function NotAfter(cache: Cache, version: int): set<Uuid> {
    set id | id in cache && cache[id].version <= version
  }

  /** Exactly `n` rows have a version up to some bound: no version has rows on both sides of position `n`. */
  ghost predicate EndsVersion(cache: Cache, n: nat) {
    exists version :: |NotAfter(cache, version)| == n
  }

  /** Every page that is not the last ends where a version ends. */
  ghost predicate PagesEndVersions(cache: Cache) {
    forall n: nat :: 0 < n < |cache| && n % PAGE_SIZE == 0 ==> EndsVersion(cache, n)
  }

  // ----- a page boundary where a version ends -----

  lemma ListingElements(cache: Cache, listing: seq<Uuid>)
    requires IsListing(cache, listing)
    ensures |listing| == |cache| && Elements(listing) == cache.Keys
    ensures forall id :: id in listing <==> id in cache
  {
    ListingSize(cache, listing);
    assert forall id :: id in listing <==> id in Elements(listing);
  }

  lemma SameSizeSubset<T>(a: set<T>, b: set<T>)
    requires a <= b && |a| == |b|
    ensures a == b
  {
    var rest := b - a;
    assert b == a + rest;
  }

  lemma SmallerSubset<T>(a: set<T>, b: set<T>)
    requires a <= b
    ensures |a| <= |b|
  {
    assert b == a + (b - a);
  }

  /** The rows up to a version come first in a listing. */
  lemma EarlyFirst(cache: Cache, listing: seq<Uuid>, version: int, j: nat)
    requires IsListing(cache, listing) && j < |listing| && listing[j] in cache && cache[listing[j]].version > version
    ensures |NotAfter(cache, version)| <= j
  {
    ListingElements(cache, listing);
    forall id | id in NotAfter(cache, version)
      ensures id in Elements(listing[..j])
    {
      var i :| 0 <= i < |listing| && listing[i] == id;
      assert i < j;
      assert listing[..j][i] == id;
    }
    SmallerSubset(NotAfter(cache, version), Elements(listing[..j]));
    DistinctSize(listing[..j]);
  }

  /** Where a version ends, every answer has the same rows before that position. */
  lemma FirstRows(cache: Cache, listing: seq<Uuid>, n: nat, version: int)
    requires IsListing(cache, listing) && n <= |listing| && |NotAfter(cache, version)| == n
    ensures Elements(listing[..n]) == NotAfter(cache, version)
  {
    ListingElements(cache, listing);
    var first := listing[..n];
    forall id | id in Elements(first)
      ensures id in NotAfter(cache, version)
    {
      var j :| 0 <= j < n && first[j] == id;
      assert listing[j] in cache;
      if cache[listing[j]].version > version {
        EarlyFirst(cache, listing, version, j);
      }
    }
    DistinctSize(first);
    SameSizeSubset(Elements(first), NotAfter(cache, version));
  }

  /** So each answer of a snapshot has the same rows before each page. */
  lemma SamePrefix(cache: Cache, a: seq<Uuid>, b: seq<Uuid>, i: nat)
    requires PagesEndVersions(cache) && IsListing(cache, a) && IsListing(cache, b)
    ensures Elements(Take(a, PAGE_SIZE * i)) == Elements(Take(b, PAGE_SIZE * i))
  {
    ListingElements(cache, a);
    ListingElements(cache, b);
    var n := PAGE_SIZE * i;
    if n == 0 {
      assert Take(a, 0) == [] && Take(b, 0) == [];
    } else if n < |cache| {
      assert EndsVersion(cache, n);
      var version :| |NotAfter(cache, version)| == n;
      FirstRows(cache, a, n, version);
      FirstRows(cache, b, n, version);
    }
  }

  /** One more page of an answer is the rows behind those before it. */
  lemma NextPage(cache: Cache, listing: seq<Uuid>, i: nat)
    requires IsListing(cache, listing) && PAGE_SIZE * i <= |listing|
    ensures
      var before, page := Take(listing, PAGE_SIZE * i), Slice(listing, PAGE_SIZE * i);
      && Elements(Take(listing, PAGE_SIZE * (i + 1))) == Elements(before) + Elements(page)
      && Elements(before) !! Elements(page) && AllDistinct(page)
  {
    var n := PAGE_SIZE * i;
    var before, page := Take(listing, n), Slice(listing, n);
    SliceCached(cache, listing, n);
    assert before == listing[..n];
    assert Take(listing, PAGE_SIZE * (i + 1)) == before + page;
  }

  lemma DistinctMore<T>(s: seq<T>, t: seq<T>)
    requires AllDistinct(s) && AllDistinct(t) && Elements(s) !! Elements(t)
    ensures AllDistinct(s + t) && Elements(s + t) == Elements(s) + Elements(t)
  {
    forall i, j | 0 <= i < j < |s + t|
      ensures (s + t)[i] != (s + t)[j]
    {
      if i < |s| <= j {
        assert s[i] in Elements(s) && t[j - |s|] in Elements(t);
      }
    }
  }

  lemma {:induction false} CoversSoFar(cache: Cache, listings: seq<seq<Uuid>>, k: nat)
    requires Answers(cache, listings) && PagesEndVersions(cache) && k <= |listings|
    ensures AllDistinct(Concat(Cut(listings)[..k]))
    ensures Elements(Concat(Cut(listings)[..k])) == Elements(Take(listings[0], PAGE_SIZE * k))
  {
    var pages := Cut(listings)[..k];
    if k == 0 {
      assert Take(listings[0], 0) == [];
    } else {
      var listing := listings[k - 1];
      CoversSoFar(cache, listings, k - 1);
      assert pages[..k - 1] == Cut(listings)[..k - 1] && pages[k - 1] == Slice(listing, PAGE_SIZE * (k - 1));
      ListingElements(cache, listing);
      NextPage(cache, listing, k - 1);
      SamePrefix(cache, listing, listings[0], k - 1);
      SamePrefix(cache, listing, listings[0], k);
      hide Take, Slice, Cut, PagesEndVersions;
      DistinctMore(Concat(pages[..k - 1]), pages[k - 1]);
    }
  }

  lemma CoversAll(cache: Cache, listings: seq<seq<Uuid>>)
    requires Answers(cache, listings) && PagesEndVersions(cache)
    ensures CoversOnce(cache, Concat(Cut(listings)))
  {
    CoversSoFar(cache, listings, |listings|);
    assert Cut(listings)[..|listings|] == Cut(listings);
    ListingElements(cache, listings[0]);
    assert Take(listings[0], PAGE_SIZE * |listings|) == listings[0];
  }

  // ----- a page boundary inside a version -----

  function VersionOf(cache: Cache, id: Uuid): int {
    if id in cache then cache[id].version else 0
  }

  /** There is an answer: say, with ties in the order of the ids. */
  lemma SomeListing(cache: Cache) returns (listing: seq<Uuid>)
    ensures IsListing(cache, listing)
  {
    var less := (x: Uuid, y: Uuid) =>
      VersionOf(cache, x) < VersionOf(cache, y) || (VersionOf(cache, x) == VersionOf(cache, y) && x < y);
    listing := Ascending(less, cache.Keys);
    assert forall i, j :: 0 <= i < j < |listing| ==> less(listing[i], listing[j]);
  }

  function Swapped<T>(s: seq<T>, n: nat): (r: seq<T>)
    requires 0 < n < |s|
    ensures |r| == |s|
  {
    s[n - 1 := s[n]][n := s[n - 1]]
  }

  lemma SwappedDistinct<T>(s: seq<T>, n: nat)
    requires 0 < n < |s| && AllDistinct(s)
    ensures AllDistinct(Swapped(s, n))
  {
  }

  lemma SwappedElements<T>(s: seq<T>, n: nat)
    requires 0 < n < |s|
    ensures Elements(Swapped(s, n)) == Elements(s)
  {
    var r := Swapped(s, n);
    assert r[n] == s[n - 1] && r[n - 1] == s[n] && forall i :: 0 <= i < |s| && i != n && i != n - 1 ==> r[i] == s[i];
    forall x: T
      ensures x in r <==> x in s
    {
    }
  }

  /** Two neighbours of one version may as well come the other way round. */
  lemma SwappedListing(cache: Cache, a: seq<Uuid>, n: nat)
    requires IsListing(cache, a) && 0 < n < |a| && VersionOf(cache, a[n - 1]) == VersionOf(cache, a[n])
    ensures IsListing(cache, Swapped(a, n))
  {
    ListingElements(cache, a);
    SwappedDistinct(a, n);
    SwappedElements(a, n);
    assert forall i :: 0 <= i < |a| ==> a[i] in cache;
  }

  /** The position before which just the rows up to a version are, if its neighbours differ in version. */
  lemma EndsBetween(cache: Cache, a: seq<Uuid>, n: nat)
    requires IsListing(cache, a) && 0 < n < |a| && VersionOf(cache, a[n - 1]) != VersionOf(cache, a[n])
    ensures EndsVersion(cache, n)
  {
    ListingElements(cache, a);
    assert a[n - 1] in cache && a[n] in cache;
    var version := cache[a[n - 1]].version;
    forall id: Uuid
      ensures id in NotAfter(cache, version) <==> id in Elements(a[..n])
    {
      if id in cache {
        var i :| 0 <= i < |a| && a[i] == id;
        assert i < n ==> a[..n][i] == id;
      }
      if id in a[..n] {
        var i :| 0 <= i < n && a[..n][i] == id;
        assert a[i] == id && id in cache;
      }
    }
    assert NotAfter(cache, version) == Elements(a[..n]);
    DistinctSize(a[..n]);
  }

  /** A row on two pages is twice in the whole. */
  lemma {:induction false} TwoPages<T>(pages: seq<seq<T>>, i: nat, j: nat, x: T)
    requires i < j < |pages| && x in pages[i] && x in pages[j]
    ensures !AllDistinct(Concat(pages))
  {
    var init, last := pages[..|pages| - 1], pages[|pages| - 1];
    var before := Concat(init);
    if j < |pages| - 1 {
      TwoPages(init, i, j, x);
      var k, l :| 0 <= k < l < |before| && before[k] == before[l];
      assert (before + last)[k] == (before + last)[l];
    } else {
      OnPage(init, i, x);
      var k :| 0 <= k < |before| && before[k] == x;
      var l :| 0 <= l < |last| && last[l] == x;
      assert (before + last)[k] == (before + last)[|before| + l];
    }
  }

  lemma {:induction false} OnPage<T>(pages: seq<seq<T>>, i: nat, x: T)
    requires i < |pages| && x in pages[i]
    ensures x in Concat(pages)
  {
    if i < |pages| - 1 {
      OnPage(pages[..|pages| - 1], i, x);
    }
  }

  /** One answer for the first `k` queries and another one from then on. */
  function Turning(count: nat, k: nat, a: seq<Uuid>, b: seq<Uuid>): (listings: seq<seq<Uuid>>)
    ensures |listings| == count
  {
    seq(count, i => if i < k then a else b)
  }

  lemma TurningAnswers(cache: Cache, k: nat, a: seq<Uuid>, b: seq<Uuid>)
    requires IsListing(cache, a) && IsListing(cache, b)
    ensures Answers(cache, Turning(|cache| / PAGE_SIZE + 1, k, a, b))
  {
    hide IsListing;
  }

  /** Some answer has two rows of one version around a position at which no version ends. */
  lemma TieAround(cache: Cache, n: nat) returns (a: seq<Uuid>)
    requires 0 < n < |cache| && !EndsVersion(cache, n)
    ensures IsListing(cache, a) && |a| == |cache| && IsListing(cache, Swapped(a, n))
  {
    a := SomeListing(cache);
    ListingElements(cache, a);
    hide IsListing, EndsVersion;
    if VersionOf(cache, a[n - 1]) != VersionOf(cache, a[n]) {
      EndsBetween(cache, a, n);
    }
    SwappedListing(cache, a, n);
  }

  /** Answers that swap two rows of one version around the end of a page, from the next page on, show one of them
      twice. */
  lemma TieRepeats(cache: Cache, n: nat) returns (listings: seq<seq<Uuid>>)
    requires 0 < n < |cache| && n % PAGE_SIZE == 0 && !EndsVersion(cache, n)
    ensures Answers(cache, listings) && !CoversOnce(cache, Concat(Cut(listings)))
  {
    hide IsListing, Cut, EndsVersion, Concat, AllDistinct, Answers;
    var a := TieAround(cache, n);
    var k := n / PAGE_SIZE;
    listings := Turning(|cache| / PAGE_SIZE + 1, k, a, Swapped(a, n));
    TurningAnswers(cache, k, a, Swapped(a, n));
    ShownTwice(listings, k, a);
  }

  lemma ShownTwice(listings: seq<seq<Uuid>>, k: nat, a: seq<Uuid>)
    requires 0 < k < |listings| && PAGE_SIZE * k < |a|
    requires listings[k - 1] == a && listings[k] == Swapped(a, PAGE_SIZE * k)
    ensures !AllDistinct(Concat(Cut(listings)))
  {
    hide AllDistinct, Concat;
    var n := PAGE_SIZE * k;
    SliceAt(a, PAGE_SIZE * (k - 1), PAGE_SIZE - 1);
    SliceAt(Swapped(a, n), n, 0);
    hide Slice;
    TwoPages(Cut(listings), k - 1, k, a[n - 1]);
  }

  lemma SliceAt<T>(s: seq<T>, offset: nat, i: nat)
    requires offset + i < |s| && i < PAGE_SIZE
    ensures s[offset + i] in Slice(s, offset)
  {
    assert Slice(s, offset)[i] == s[offset + i];
  }

  // ----- the theorem -----

  /** The pages hold every row exactly once whatever the answers, if and only if every page but the last ends
      where a version ends. */
  lemma SnapshotExact(cache: Cache)
    ensures (forall listings | Answers(cache, listings) :: CoversOnce(cache, Concat(Cut(listings))))
       <==> PagesEndVersions(cache)
  {
    if PagesEndVersions(cache) {
      forall listings | Answers(cache, listings)
        ensures CoversOnce(cache, Concat(Cut(listings)))
      {
        CoversAll(cache, listings);
      }
    } else {
      var n: nat :| 0 < n < |cache| && n % PAGE_SIZE == 0 && !EndsVersion(cache, n);
      var listings := TieRepeats(cache, n);
    }
  }

  /** A database that gives all queries the same answer needs no condition: the pages are that answer. */
  lemma StableAnswer(cache: Cache, listings: seq<seq<Uuid>>)
    requires Answers(cache, listings) && forall i :: 0 <= i < |listings| ==> listings[i] == listings[0]
    ensures Concat(Cut(listings)) == listings[0] && CoversOnce(cache, listings[0])
  {
    ListingElements(cache, listings[0]);
    StableSoFar(cache, listings, |listings|);
    assert Cut(listings)[..|listings|] == Cut(listings);
    assert Take(listings[0], PAGE_SIZE * |listings|) == listings[0];
  }

  lemma {:induction false} StableSoFar(cache: Cache, listings: seq<seq<Uuid>>, k: nat)
    requires Answers(cache, listings) && forall i :: 0 <= i < |listings| ==> listings[i] == listings[0]
    requires k <= |listings|
    ensures Concat(Cut(listings)[..k]) == Take(listings[0], PAGE_SIZE * k)
  {
    var pages, listing := Cut(listings)[..k], listings[0];
    if k > 0 {
      StableSoFar(cache, listings, k - 1);
      ListingElements(cache, listing);
      assert pages[..k - 1] == Cut(listings)[..k - 1] && pages[k - 1] == Slice(listing, PAGE_SIZE * (k - 1));
      TakePage(listing, k - 1);
      hide Cut, Take, Slice, IsListing;
    }
  }

  lemma TakePage<T>(s: seq<T>, i: nat)
    requires PAGE_SIZE * i <= |s|
    ensures Take(s, PAGE_SIZE * (i + 1)) == Take(s, PAGE_SIZE * i) + Slice(s, PAGE_SIZE * i)
  {
  }
}
