/**
 The Envoy virtual hosts: rebuilt from all routing policies on every pass, and published as the
 difference to the previous pass.
 */
module EnvoyRoutes {
  import opened Wrappers
  import opened Ordering
  import opened Strings

  datatype Route = Route(matchPrefix: string, targetService: string, timeout: Option<int>, prefixRewrite: string)

  datatype Cors = Cors(origins: seq<string>, methods: string, headers: string, exposed: string, maxAge: Option<string>)

  datatype Policy = Policy(ingressName: string, domain: string, routes: seq<Route>, cors: Option<Cors>)

  datatype EnvoyRoute = EnvoyRoute(name: string, prefix: string, timeout: Option<int>, cluster: string, rewrite: string)

  datatype VirtualHost = VirtualHost(name: string, domains: seq<string>, routes: seq<EnvoyRoute>, cors: Option<Cors>)

  /** The library functions: kebab-casing of a domain, and the bytes of a marshalled route. */
  datatype Library = Library(kebab: string -> string, marshal: Route -> string)

  type Policies = map<string, Policy>

  type Hosts = map<string, VirtualHost>

  /** The hash of a route and its suffixes; the digest stands for the bytes hashed. */
  function HashRoute(lib: Library, route: Route, suffixes: seq<string>): string {
    if suffixes == [] then lib.marshal(route)
    else HashRoute(lib, route, suffixes[..|suffixes| - 1]) + suffixes[|suffixes| - 1]
  }

  function ToEnvoyRoute(lib: Library, policy: Policy, route: Route): EnvoyRoute {
    EnvoyRoute(HashRoute(lib, route, [policy.ingressName, policy.domain]),
               route.matchPrefix, route.timeout, route.targetService, route.prefixRewrite)
  }

  function HostName(lib: Library, policy: Policy): string {
    policy.ingressName + "/" + lib.kebab(policy.domain)
  }

  // ----- the full rebuild -----

  ghost predicate AllKnown(policies: Policies, ids: seq<string>) {
    forall id :: id in ids ==> id in policies
  }

  /** The ids, of those listed, whose policy is on the virtual host `name`. */
  function On(lib: Library, policies: Policies, ids: seq<string>, name: string): (r: seq<string>)
    requires AllKnown(policies, ids)
    ensures forall id :: id in r <==> id in ids && HostName(lib, policies[id]) == name
  {
    if ids == [] then []
    else
      var last := ids[|ids| - 1];
      assert ids == ids[..|ids| - 1] + [last];
      On(lib, policies, ids[..|ids| - 1], name) + if HostName(lib, policies[last]) == name then [last] else []
  }

  function PolicyRoutes(lib: Library, policy: Policy, n: nat): seq<EnvoyRoute>
    requires n <= |policy.routes|
  {
    seq(n, i requires 0 <= i < n => ToEnvoyRoute(lib, policy, policy.routes[i]))
  }

  /** All routes of the listed policies, in order. */
  function RoutesOf(lib: Library, policies: Policies, ids: seq<string>): seq<EnvoyRoute>
    requires AllKnown(policies, ids)
  {
    if ids == [] then []
    else
      var last := policies[ids[|ids| - 1]];
      RoutesOf(lib, policies, ids[..|ids| - 1]) + PolicyRoutes(lib, last, |last.routes|)
  }

  function Names(routes: seq<EnvoyRoute>): set<string> {
    set r | r in routes :: r.name
  }

  /** The routes without those whose name came before. */
  function Distinct(routes: seq<EnvoyRoute>): seq<EnvoyRoute> {
    if routes == [] then []
    else
      var init, last := routes[..|routes| - 1], routes[|routes| - 1];
      Distinct(init) + if last.name in Names(init) then [] else [last]
  }

  /** The virtual host that the listed policies make up under `name`. */
  function HostOf(lib: Library, policies: Policies, ids: seq<string>, name: string): VirtualHost
    requires AllKnown(policies, ids)
    requires On(lib, policies, ids, name) != []
  {
    var on := On(lib, policies, ids, name);
    VirtualHost(name, [policies[on[0]].domain], Distinct(RoutesOf(lib, policies, on)), policies[on[0]].cors)
  }

  /** A virtual host has a policy on it exactly when it is the host of some listed policy. */
  lemma OnSome(lib: Library, policies: Policies, ids: seq<string>)
    requires AllKnown(policies, ids)
    ensures forall id :: id in ids ==> On(lib, policies, ids, HostName(lib, policies[id])) != []
    ensures forall name :: On(lib, policies, ids, name) != [] ==>
              exists id :: id in ids && HostName(lib, policies[id]) == name
  {
    forall id | id in ids
      ensures On(lib, policies, ids, HostName(lib, policies[id])) != []
    {
      assert id in On(lib, policies, ids, HostName(lib, policies[id]));
    }
    forall name | On(lib, policies, ids, name) != []
      ensures exists id :: id in ids && HostName(lib, policies[id]) == name
    {
      assert On(lib, policies, ids, name)[0] in On(lib, policies, ids, name);
    }
  }

  /** All virtual hosts of the listed policies. */
  function HostsOf(lib: Library, policies: Policies, ids: seq<string>): (hosts: Hosts)
    requires AllKnown(policies, ids)
    ensures forall name :: name in hosts <==> On(lib, policies, ids, name) != []
  {
    OnSome(lib, policies, ids);
    map id | id in ids :: HostName(lib, policies[id]) := HostOf(lib, policies, ids, HostName(lib, policies[id]))
  }

  lemma HostsOfAt(lib: Library, policies: Policies, ids: seq<string>, name: string)
    requires AllKnown(policies, ids) && name in HostsOf(lib, policies, ids)
    ensures HostsOf(lib, policies, ids)[name] == HostOf(lib, policies, ids, name)
  {
  }

  lemma KeysKnown(policies: Policies)
    ensures AllKnown(policies, SortedKeys(policies))
  {
    StringOrder();
    assert forall id :: id in SortedKeys(policies) ==> id in Elements(SortedKeys(policies));
  }

  /** The virtual hosts of all policies, taken in ascending order of resource id. */
  ghost function Rebuild(lib: Library, policies: Policies): Hosts {
    KeysKnown(policies);
    HostsOf(lib, policies, SortedKeys(policies))
  }

  // ----- the rebuild is canonical -----

  lemma NamesAppend(routes: seq<EnvoyRoute>, r: EnvoyRoute)
    ensures Names(routes + [r]) == Names(routes) + {r.name}
  {
    assert forall x :: x in routes + [r] <==> x in routes || x == r;
  }

  lemma {:induction false} DistinctNames(routes: seq<EnvoyRoute>)
    ensures Names(Distinct(routes)) == Names(routes)
    ensures forall i, j :: 0 <= i < j < |Distinct(routes)| ==> Distinct(routes)[i].name != Distinct(routes)[j].name
  {
    if routes != [] {
      var init, last := routes[..|routes| - 1], routes[|routes| - 1];
      DistinctNames(init);
      assert routes == init + [last];
      var kept := Distinct(init);
      assert forall i :: 0 <= i < |kept| ==> kept[i] in kept && kept[i].name in Names(kept);
      NamesAppend(init, last);
      NamesAppend(kept, last);
    }
  }

  lemma DistinctMore(routes: seq<EnvoyRoute>, r: EnvoyRoute)
    ensures Names(routes + [r]) == Names(routes) + {r.name}
    ensures Distinct(routes + [r]) == if r.name in Names(routes) then Distinct(routes) else Distinct(routes) + [r]
  {
    NamesAppend(routes, r);
    assert (routes + [r])[..|routes|] == routes;
  }

  /** Route `r` stands at position `i` and its name does not come before. */
  ghost predicate FirstAt(routes: seq<EnvoyRoute>, r: EnvoyRoute, i: nat) {
    i < |routes| && routes[i] == r && r.name !in Names(routes[..i])
  }

  /** A route is kept exactly where its name comes first. */
  lemma {:induction false} DistinctKeepsFirst(routes: seq<EnvoyRoute>, r: EnvoyRoute)
    ensures r in Distinct(routes) <==> exists i :: FirstAt(routes, r, i)
  {
    if routes != [] {
      hide Names;
      var init, last := routes[..|routes| - 1], routes[|routes| - 1];
      DistinctKeepsFirst(init, r);
      forall i | 0 <= i < |init|
        ensures FirstAt(init, r, i) <==> FirstAt(routes, r, i)
      {
        assert init[..i] == routes[..i];
      }
      assert FirstAt(routes, r, |init|) <==> last == r && last.name !in Names(init);
    }
  }

  lemma {:induction false} OnKeepsOrder(lib: Library, policies: Policies, ids: seq<string>, name: string)
    requires AllKnown(policies, ids) && Increasing(StringLess, ids)
    ensures Increasing(StringLess, On(lib, policies, ids, name))
  {
    if ids != [] {
      var init := ids[..|ids| - 1];
      OnKeepsOrder(lib, policies, init, name);
      var on := On(lib, policies, init, name);
      forall i | 0 <= i < |on|
        ensures StringLess(on[i], ids[|ids| - 1])
      {
        assert on[i] in on;
        var j :| 0 <= j < |init| && init[j] == on[i];
        assert ids[j] == on[i];
      }
    }
  }

  /** The policies of one virtual host: all of them, in ascending id order, and so least id first. */
  ghost predicate AllOn(lib: Library, policies: Policies, name: string, on: seq<string>) {
    && on != [] && Increasing(StringLess, on)
    && (forall id :: id in on <==> id in policies && HostName(lib, policies[id]) == name)
    && (forall id :: id in on && id != on[0] ==> StringLess(on[0], id))
  }

  lemma HostPolicies(lib: Library, policies: Policies, name: string)
    requires name in Rebuild(lib, policies)
    ensures AllKnown(policies, SortedKeys(policies))
    ensures AllOn(lib, policies, name, On(lib, policies, SortedKeys(policies), name))
    ensures Rebuild(lib, policies)[name] == HostOf(lib, policies, SortedKeys(policies), name)
  {
    KeysKnown(policies);
    StringOrder();
    var ids := SortedKeys(policies);
    HostsOfAt(lib, policies, ids, name);
    OnKeepsOrder(lib, policies, ids, name);
    assert forall id :: id in ids <==> id in Elements(ids);
    LeastFirst(On(lib, policies, ids, name));
  }

  lemma LeastFirst(on: seq<string>)
    requires Increasing(StringLess, on) && on != []
    ensures forall id :: id in on && id != on[0] ==> StringLess(on[0], id)
  {
    forall id | id in on && id != on[0]
      ensures StringLess(on[0], id)
    {
      var j :| 0 <= j < |on| && on[j] == id;
    }
  }

  /** Two routes stand in this order where they come first. */
  ghost predicate InOrder(all: seq<EnvoyRoute>, r: EnvoyRoute, later: EnvoyRoute) {
    exists i, j :: i < j && FirstAt(all, r, i) && FirstAt(all, later, j)
  }

  /** The routes kept stand in the order in which they came first. */
  lemma {:induction false} DistinctInOrder(routes: seq<EnvoyRoute>)
    ensures forall i, j :: 0 <= i < j < |Distinct(routes)| ==> InOrder(routes, Distinct(routes)[i], Distinct(routes)[j])
  {
    if routes != [] {
      var init, last := routes[..|routes| - 1], routes[|routes| - 1];
      var kept, before := Distinct(routes), Distinct(init);
      DistinctInOrder(init);
      forall i, j | 0 <= i < j < |kept|
        ensures InOrder(routes, kept[i], kept[j])
      {
        if j < |before| {
          assert InOrder(init, before[i], before[j]);
          var p, q :| p < q && FirstAt(init, before[i], p) && FirstAt(init, before[j], q);
          FirstInLonger(routes, before[i], p);
          FirstInLonger(routes, before[j], q);
        } else {
          DistinctKeepsFirst(init, before[i]);
          var p :| FirstAt(init, before[i], p);
          FirstInLonger(routes, before[i], p);
          assert FirstAt(routes, last, |init|);
        }
      }
    }
  }

  lemma FirstInLonger(routes: seq<EnvoyRoute>, r: EnvoyRoute, i: nat)
    requires routes != [] && FirstAt(routes[..|routes| - 1], r, i)
    ensures FirstAt(routes, r, i)
  {
    assert routes[..|routes| - 1][..i] == routes[..i];
  }

  /** `kept` is `all` without the routes whose name came before, in the same order. */
  ghost predicate FirstOnly(all: seq<EnvoyRoute>, kept: seq<EnvoyRoute>) {
    && Names(kept) == Names(all)
    && (forall i, j :: 0 <= i < j < |kept| ==> kept[i].name != kept[j].name)
    && (forall r :: r in kept <==> exists i :: FirstAt(all, r, i))
    && (forall i, j :: 0 <= i < j < |kept| ==> InOrder(all, kept[i], kept[j]))
  }

  lemma DistinctFirstOnly(all: seq<EnvoyRoute>)
    ensures FirstOnly(all, Distinct(all))
  {
    DistinctNames(all);
    DistinctInOrder(all);
    forall r: EnvoyRoute
      ensures r in Distinct(all) <==> exists i :: FirstAt(all, r, i)
    {
      DistinctKeepsFirst(all, r);
    }
  }

  /** A route comes first at one position only. */
  lemma OneFirst(all: seq<EnvoyRoute>, r: EnvoyRoute, i: nat, j: nat)
    ensures FirstAt(all, r, i) && FirstAt(all, r, j) ==> i == j
  {
    if i < j < |all| && all[i] == r {
      assert all[..j][i] == r;
    }
    if j < i < |all| && all[j] == r {
      assert all[..i][j] == r;
    }
  }

  /** Where a kept route comes first. */
  ghost function Place(all: seq<EnvoyRoute>, r: EnvoyRoute): (i: nat)
    requires exists i :: FirstAt(all, r, i)
    ensures FirstAt(all, r, i)
  {
    var i :| FirstAt(all, r, i);
    i
  }

  lemma Placed(all: seq<EnvoyRoute>, kept: seq<EnvoyRoute>, i: nat, j: nat)
    requires FirstOnly(all, kept) && i < j < |kept|
    ensures kept[i] in kept && kept[j] in kept && Place(all, kept[i]) < Place(all, kept[j])
  {
    assert InOrder(all, kept[i], kept[j]);
    var p, q :| p < q && FirstAt(all, kept[i], p) && FirstAt(all, kept[j], q);
    OneFirst(all, kept[i], p, Place(all, kept[i]));
    OneFirst(all, kept[j], q, Place(all, kept[j]));
  }

  /** These conditions leave no choice: they determine the routes kept, and their order. */
  lemma FirstOnlyDetermines(all: seq<EnvoyRoute>, a: seq<EnvoyRoute>, b: seq<EnvoyRoute>)
    requires FirstOnly(all, a) && FirstOnly(all, b)
    ensures a == b
  {
    SameByPlace(all, a, b, |a|);
    SameByPlace(all, b, a, |b|);
  }

  /** The next route of one side behind a common beginning is also on the other, and not in the beginning. */
  lemma NextIsBehind(all: seq<EnvoyRoute>, a: seq<EnvoyRoute>, b: seq<EnvoyRoute>, n: nat) returns (i: nat)
    requires FirstOnly(all, a) && FirstOnly(all, b) && n <= |a| && n < |b| && a[..n] == b[..n]
    ensures n <= i < |a| && a[i] == b[n]
  {
    assert b[n] in b && b[n] in a;
    i :| 0 <= i < |a| && a[i] == b[n];
    hide InOrder, FirstAt;
    assert forall k :: 0 <= k < n ==> a[k] == a[..n][k] == b[..n][k] == b[k] && b[k].name != b[n].name;
  }

  /** Of the routes behind a common beginning, the next one of each comes first in all. */
  lemma NextComesFirst(all: seq<EnvoyRoute>, a: seq<EnvoyRoute>, b: seq<EnvoyRoute>, n: nat)
    requires FirstOnly(all, a) && FirstOnly(all, b) && n <= |a| && n < |b| && a[..n] == b[..n]
    ensures n < |a| && a[n] in a && b[n] in b && Place(all, a[n]) <= Place(all, b[n])
  {
    var i := NextIsBehind(all, a, b, n);
    assert a[n] in a && b[n] in b;
    if i > n {
      Placed(all, a, n, i);
    }
  }

  lemma {:induction false} SameByPlace(all: seq<EnvoyRoute>, a: seq<EnvoyRoute>, b: seq<EnvoyRoute>, n: nat)
    requires FirstOnly(all, a) && FirstOnly(all, b) && n <= |a|
    ensures n <= |b| && a[..n] == b[..n]
  {
    if n > 0 {
      hide FirstOnly;
      SameByPlace(all, a, b, n - 1);
      NextComesFirst(all, b, a, n - 1);
      NextComesFirst(all, a, b, n - 1);
      hide FirstAt;
      assert a[..n] == a[..n - 1] + [a[n - 1]] && b[..n] == b[..n - 1] + [b[n - 1]];
      PlaceTells(all, a, b, n - 1);
    }
  }

  lemma PlaceTells(all: seq<EnvoyRoute>, a: seq<EnvoyRoute>, b: seq<EnvoyRoute>, n: nat)
    requires FirstOnly(all, a) && FirstOnly(all, b) && n < |a| && n < |b| && a[n] in a && b[n] in b
    requires Place(all, a[n]) == Place(all, b[n])
    ensures a[n] == b[n]
  {
    assert FirstAt(all, a[n], Place(all, a[n])) && FirstAt(all, b[n], Place(all, b[n]));
  }

  /** What a rebuilt virtual host is: its routes are those of its policies in ascending id order, in that order,
      without later duplicates, and its domain and CORS are those of the least id on it. */
  ghost predicate Canonical(lib: Library, policies: Policies, name: string, host: VirtualHost, on: seq<string>)
    requires AllKnown(policies, on)
  {
    && AllOn(lib, policies, name, on)
    && host.name == name && host.domains == [policies[on[0]].domain] && host.cors == policies[on[0]].cors
    && FirstOnly(RoutesOf(lib, policies, on), host.routes)
  }

  /** That leaves no choice of the host, down to the order of its routes. */
  lemma CanonicalDetermines(lib: Library, policies: Policies, name: string, a: VirtualHost, b: VirtualHost,
      on: seq<string>)
    requires AllKnown(policies, on)
    requires Canonical(lib, policies, name, a, on) && Canonical(lib, policies, name, b, on)
    ensures a == b
  {
    FirstOnlyDetermines(RoutesOf(lib, policies, on), a.routes, b.routes);
  }

  /** The rebuild is canonical: every policy is on a virtual host of the rebuild, and every virtual host of the
      rebuild is made up of all its policies in the canonical way. */
  lemma RebuildCanonical(lib: Library, policies: Policies)
    ensures AllKnown(policies, SortedKeys(policies))
    ensures forall id :: id in policies ==> HostName(lib, policies[id]) in Rebuild(lib, policies)
    ensures forall name :: name in Rebuild(lib, policies) ==>
              Canonical(lib, policies, name, Rebuild(lib, policies)[name],
                  On(lib, policies, SortedKeys(policies), name))
  {
    KeysKnown(policies);
    forall name | name in Rebuild(lib, policies)
      ensures Canonical(lib, policies, name, Rebuild(lib, policies)[name],
              On(lib, policies, SortedKeys(policies), name))
    {
      HostPolicies(lib, policies, name);
      DistinctFirstOnly(RoutesOf(lib, policies, On(lib, policies, SortedKeys(policies), name)));
      hide FirstOnly, RoutesOf, Rebuild;
    }
    forall id | id in policies
      ensures HostName(lib, policies[id]) in Rebuild(lib, policies)
    {
      EveryHostBuilt(lib, policies, id);
    }
  }

  lemma EveryHostBuilt(lib: Library, policies: Policies, id: string)
    requires id in policies
    ensures HostName(lib, policies[id]) in Rebuild(lib, policies)
  {
    KeysKnown(policies);
    StringOrder();
    var ids := SortedKeys(policies);
    assert id in Elements(ids);
    assert id in On(lib, policies, ids, HostName(lib, policies[id]));
  }

  // ----- one pass -----

  /** The differences between two passes: hosts new or changed, and hosts gone. */
  function Changed(old_: Hosts, new_: Hosts): Hosts {
    map name | name in new_ && Get(old_, name) != Some(new_[name]) :: new_[name]
  }

  function Gone(old_: Hosts, new_: Hosts): set<string> {
    old_.Keys - new_.Keys
  }

  /** A virtual host under construction, with the route names it has and the hash last taken of it.  The
      hash stands for the host it was taken of. */
  datatype HostEntry = HostEntry(host: VirtualHost, routeNames: set<string>, sum: Option<VirtualHost>)

  function HostsIn(entries: map<string, HostEntry>): (hosts: Hosts)
    ensures hosts.Keys == entries.Keys
  {
    map name | name in entries :: entries[name].host
  }

  /** Every entry's hash was taken of the entry as it is. */
  ghost predicate Hashed(entries: map<string, HostEntry>) {
    forall name :: name in entries ==> entries[name].sum == Some(entries[name].host)
  }

  /** The entry that the listed policies make up under `name`, hashed. */
  ghost function EntryOf(lib: Library, policies: Policies, ids: seq<string>, name: string): HostEntry
    requires AllKnown(policies, ids) && On(lib, policies, ids, name) != []
  {
    HostEntry(HostOf(lib, policies, ids, name), Names(RoutesOf(lib, policies, On(lib, policies, ids, name))),
              Some(HostOf(lib, policies, ids, name)))
  }

  /** `entries` are exactly those that the listed policies make up. */
  ghost predicate Built(lib: Library, policies: Policies, ids: seq<string>, entries: map<string, HostEntry>)
    requires AllKnown(policies, ids)
  {
    forall name ::
      && (name in entries <==> On(lib, policies, ids, name) != [])
      && (name in entries ==> entries[name] == EntryOf(lib, policies, ids, name))
  }

  lemma BuiltHosts(lib: Library, policies: Policies, ids: seq<string>, entries: map<string, HostEntry>)
    requires AllKnown(policies, ids) && Built(lib, policies, ids, entries)
    ensures HostsIn(entries) == HostsOf(lib, policies, ids) && Hashed(entries)
  {
    hide On, HostOf;
    var hosts := HostsOf(lib, policies, ids);
    forall name
      ensures name in hosts <==> name in entries
      ensures name in entries ==> hosts[name] == entries[name].host && entries[name].sum == Some(entries[name].host)
    {
      if name in hosts {
        HostsOfAt(lib, policies, ids, name);
      }
    }
  }

  lemma EntryAlike(lib: Library, policies: Policies, ids: seq<string>, ids': seq<string>, name: string)
    requires AllKnown(policies, ids) && AllKnown(policies, ids')
    requires On(lib, policies, ids, name) == On(lib, policies, ids', name)
    ensures On(lib, policies, ids, name) != [] ==>
            EntryOf(lib, policies, ids, name) == EntryOf(lib, policies, ids', name)
  {
  }

  /** One more policy changes the entry of its own virtual host only. */
  lemma BuiltMore(lib: Library, policies: Policies, ids: seq<string>, id: string, entries: map<string, HostEntry>,
      entry: HostEntry)
    requires AllKnown(policies, ids + [id]) && AllKnown(policies, ids) && Built(lib, policies, ids, entries)
    requires On(lib, policies, ids + [id], HostName(lib, policies[id])) != []
    requires entry == EntryOf(lib, policies, ids + [id], HostName(lib, policies[id]))
    ensures Built(lib, policies, ids + [id], entries[HostName(lib, policies[id]) := entry])
  {
    hide On, HostOf, RoutesOf, Distinct, Names;
    var own := HostName(lib, policies[id]);
    var after := entries[own := entry];
    forall name
      ensures name in after <==> On(lib, policies, ids + [id], name) != []
      ensures name in after ==> after[name] == EntryOf(lib, policies, ids + [id], name)
    {
      OnMore(lib, policies, ids, id, name);
      if name != own {
        EntryAlike(lib, policies, ids, ids + [id], name);
      }
    }
  }

  /** The entry of its virtual host with one more policy: the first policy on it sets domain and CORS, and
      the routes it does not have yet come behind those it has. */
  lemma EntryMore(lib: Library, policies: Policies, ids: seq<string>, id: string)
    requires AllKnown(policies, ids + [id])
    ensures AllKnown(policies, ids)
    ensures
      var p := policies[id];
      var name := HostName(lib, p);
      var on := On(lib, policies, ids, name);
      var all := RoutesOf(lib, policies, on) + PolicyRoutes(lib, p, |p.routes|);
      && On(lib, policies, ids + [id], name) != []
      && var host := if on == [] then VirtualHost(name, [p.domain], Distinct(all), p.cors)
                     else HostOf(lib, policies, ids, name).(routes := Distinct(all));
         EntryOf(lib, policies, ids + [id], name) == HostEntry(host, Names(all), Some(host))
  {
    var name := HostName(lib, policies[id]);
    var on := On(lib, policies, ids, name);
    OnMore(lib, policies, ids, id, name);
    assert (on + [id])[..|on|] == on;
  }

  lemma OnMore(lib: Library, policies: Policies, ids: seq<string>, id: string, name: string)
    requires AllKnown(policies, ids + [id])
    ensures AllKnown(policies, ids) && id in policies
    ensures On(lib, policies, ids + [id], name) ==
            On(lib, policies, ids, name) + if HostName(lib, policies[id]) == name then [id] else []
  {
    assert (ids + [id])[..|ids|] == ids;
    assert forall x :: x in ids + [id] <==> x in ids || x == id;
  }

  class Routing {
    const lib: Library
    var updated: Hosts
    var dropped: set<string>
    var resources: Policies
    var virtualHosts: map<string, HostEntry>

    /** Outside of a pass, the hash of every virtual host is up to date. */
    ghost predicate Valid()
      reads this
    {
      Hashed(virtualHosts)
    }

    constructor (lib: Library)
      ensures Valid()
      ensures this.lib == lib && updated == map[] && dropped == {} && resources == map[] && virtualHosts == map[]
    {
      this.lib := lib;
      updated, dropped, resources, virtualHosts := map[], {}, map[], map[];
    }

    method Take() returns (u: Hosts, d: set<string>)
      modifies this
      ensures u == old(updated) && d == old(dropped)
      ensures updated == map[] && dropped == {}
      ensures resources == old(resources) && virtualHosts == old(virtualHosts)
    {
      u, d := updated, dropped;
      updated, dropped := map[], {};
    }

    method DropPolicy(id: string)
      modifies this`resources
      ensures resources == old(resources) - {id}
    {
      resources := resources - {id};
    }

    method PutPolicy(id: string, policy: Policy)
      modifies this`resources
      ensures resources == old(resources)[id := policy]
    {
      resources := resources[id := policy];
    }

    /** Appends the routes of a policy that the virtual host does not have yet. */
    method AddRoutes(entry: HostEntry, policy: Policy, ghost base: seq<EnvoyRoute>) returns (r: HostEntry)
      requires entry.host.routes == Distinct(base) && entry.routeNames == Names(base)
      ensures r.host == entry.host.(routes := Distinct(base + PolicyRoutes(lib, policy, |policy.routes|)))
      ensures r.routeNames == Names(base + PolicyRoutes(lib, policy, |policy.routes|))
    {
      hide Distinct, Names, ToEnvoyRoute;
      r := entry;
      var i := 0;
      assert base + PolicyRoutes(lib, policy, 0) == base;
      while i < |policy.routes|
        invariant 0 <= i <= |policy.routes|
        invariant r.host == entry.host.(routes := Distinct(base + PolicyRoutes(lib, policy, i)))
        invariant r.routeNames == Names(base + PolicyRoutes(lib, policy, i))
      {
        ghost var before := base + PolicyRoutes(lib, policy, i);
        var route := ToEnvoyRoute(lib, policy, policy.routes[i]);
        assert base + PolicyRoutes(lib, policy, i + 1) == before + [route];
        DistinctMore(before, route);
        if route.name !in r.routeNames {
          r := r.(routeNames := r.routeNames + {route.name}, host := r.host.(routes := r.host.routes + [route]));
        }
        i := i + 1;
      }
    }

    /** The entry of a policy's virtual host with the policy added to it, hashed again. */
    method AddPolicy(entries: map<string, HostEntry>, id: string, ghost ids: seq<string>)
      returns (after: map<string, HostEntry>)
      requires id in resources && AllKnown(resources, ids) && AllKnown(resources, ids + [id])
      requires Built(lib, resources, ids, entries)
      ensures Built(lib, resources, ids + [id], after)
    {
      hide RoutesOf, PolicyRoutes, Distinct, Names, On;
      var policy := resources[id];
      var name := HostName(lib, policy);
      EntryMore(lib, resources, ids, id);
      ghost var base := RoutesOf(lib, resources, On(lib, resources, ids, name));
      NoRoutes(lib, resources);
      var entry := if name in entries then entries[name]
                   else HostEntry(VirtualHost(name, [policy.domain], [], policy.cors), {}, None);
      entry := AddRoutes(entry, policy, base);
      entry := entry.(sum := Some(entry.host));
      BuiltMore(lib, resources, ids, id, entries, entry);
      after := entries[name := entry];
    }

    /** The first loop of a pass: all virtual hosts, from the policies in ascending id order. */
    method BuildHosts() returns (entries: map<string, HostEntry>)
      ensures HostsIn(entries) == Rebuild(lib, resources) && Hashed(entries)
    {
      entries := map[];
      var ids := SortStringKeys(resources);
      KeysKnown(resources);
      NothingBuilt(lib, resources);
      hide Built, HostsIn, HostsOf, Hashed;
      var i := 0;
      assert ids[..0] == [];
      while i < |ids|
        invariant 0 <= i <= |ids| && AllKnown(resources, ids[..i])
        invariant Built(lib, resources, ids[..i], entries)
      {
        assert ids[..i + 1] == ids[..i] + [ids[i]] && ids[i] in ids;
        entries := AddPolicy(entries, ids[i], ids[..i]);
        i := i + 1;
      }
      assert ids[..i] == ids;
      BuiltHosts(lib, resources, ids, entries);
    }

    /** The loop over the virtual hosts of the last pass, in any order: changed ones and gone ones. */
    method PublishKnown(next: map<string, HostEntry>)
      requires Valid() && Hashed(next)
      modifies this`updated, this`dropped
      ensures updated == old(updated) + Restrict(Changed(HostsIn(virtualHosts), HostsIn(next)), virtualHosts.Keys)
      ensures dropped == old(dropped) + Gone(HostsIn(virtualHosts), HostsIn(next))
    {
      hide Hashed, Restrict, Changed, HostsIn;
      ghost var changed := Changed(HostsIn(virtualHosts), HostsIn(next));
      RestrictNone(changed);
      var todo := virtualHosts.Keys;
      ghost var seen: set<string> := {};
      while todo != {}
        invariant todo <= virtualHosts.Keys && seen == virtualHosts.Keys - todo
        invariant updated == old(updated) + Restrict(changed, seen)
        invariant dropped == old(dropped) + (seen - next.Keys)
        decreases todo
      {
        var name :| name in todo;
        RestrictMore(changed, seen, name);
        ChangedAt(virtualHosts, next, name);
        todo := todo - {name};
        seen := seen + {name};
        if name in next {
          if next[name].sum != virtualHosts[name].sum {
            updated := updated[name := next[name].host];
          }
        } else {
          dropped := dropped + {name};
        }
      }
      assert seen == virtualHosts.Keys;
    }

    /** The loop over the virtual hosts of this pass, in any order: those that are new. */
    method PublishNew(next: map<string, HostEntry>)
      modifies this`updated
      ensures updated == old(updated) + Restrict(HostsIn(next), next.Keys - virtualHosts.Keys)
    {
      ghost var hosts := HostsIn(next);
      RestrictNone(hosts);
      var todo := next.Keys;
      ghost var seen: set<string> := {};
      while todo != {}
        invariant todo <= next.Keys && seen == next.Keys - todo - virtualHosts.Keys
        invariant updated == old(updated) + Restrict(hosts, seen)
        decreases todo
      {
        hide Restrict;
        var name :| name in todo;
        RestrictMore(hosts, seen, name);
        todo := todo - {name};
        if name !in virtualHosts {
          seen := seen + {name};
          updated := updated[name := next[name].host];
        }
      }
      assert seen == next.Keys - virtualHosts.Keys;
    }

    /** One pass: publishes what the rebuild changes and what it no longer has. */
    method ProcessChanges()
      requires Valid()
      modifies this`updated, this`dropped, this`virtualHosts
      ensures Valid() && HostsIn(virtualHosts) == Rebuild(lib, resources)
      ensures updated == old(updated) + Changed(HostsIn(old(virtualHosts)), Rebuild(lib, resources))
      ensures dropped == old(dropped) + Gone(HostsIn(old(virtualHosts)), Rebuild(lib, resources))
    {
      hide Rebuild, Changed, Restrict;
      var next := BuildHosts();
      ChangedSplits(HostsIn(virtualHosts), HostsIn(next), old(updated));
      PublishKnown(next);
      PublishNew(next);
      virtualHosts := next;
    }
  
    /** What the batch step does with the routing, a pass and then a take: applying what it hands out to the hosts
        of the last pass gives the full rebuild. */
    method Pass() returns (u: Hosts, d: set<string>)
      requires Valid() && updated == map[] && dropped == {}
      modifies this
      ensures Valid() && updated == map[] && dropped == {} && resources == old(resources)
      ensures HostsIn(virtualHosts) == Rebuild(lib, resources)
      ensures u == Changed(HostsIn(old(virtualHosts)), Rebuild(lib, resources))
      ensures d == Gone(HostsIn(old(virtualHosts)), Rebuild(lib, resources))
      ensures u.Keys !! d && (HostsIn(old(virtualHosts)) + u) - d == Rebuild(lib, resources)
    {
      hide Rebuild, Changed, Gone, Hashed, HostsIn;
      ProcessChanges();
      u, d := Take();
      DifferenceApplies(HostsIn(old(virtualHosts)), Rebuild(lib, resources));
    }
  }

  /** The part of a map under some names. */
  function Restrict(hosts: Hosts, names: set<string>): Hosts {
    map name | name in hosts && name in names :: hosts[name]
  }

  lemma RestrictNone(hosts: Hosts)
    ensures Restrict(hosts, {}) == map[]
  {
  }

  lemma RestrictMore(hosts: Hosts, names: set<string>, name: string)
    ensures Restrict(hosts, names + {name}) ==
            if name in hosts then Restrict(hosts, names)[name := hosts[name]] else Restrict(hosts, names)
  {
  }

  /** Comparing hashes tells whether a known host changed. */
  lemma ChangedAt(entries: map<string, HostEntry>, next: map<string, HostEntry>, name: string)
    requires Hashed(entries) && Hashed(next) && name in entries
    ensures
      var changed := Changed(HostsIn(entries), HostsIn(next));
      && (name in changed <==> name in next && next[name].sum != entries[name].sum)
      && (name in changed ==> changed[name] == next[name].host)
  {
  }

  /** What changed is what changed among the known hosts, and the new ones. */
  lemma ChangedSplits(old_: Hosts, new_: Hosts, base: Hosts)
    ensures base + Changed(old_, new_) ==
            base + Restrict(Changed(old_, new_), old_.Keys) + Restrict(new_, new_.Keys - old_.Keys)
  {
  }

  lemma NothingBuilt(lib: Library, policies: Policies)
    ensures Built(lib, policies, [], map[])
  {
  }

  lemma NoRoutes(lib: Library, policies: Policies)
    ensures RoutesOf(lib, policies, []) == [] && Distinct([]) == [] && Names([]) == {}
  {
  }

  // ----- runs -----

  datatype Step = PutStep(id: string, policy: Policy) | DropStep(id: string) | PassStep

  /** The policies, the hosts of the last pass, and a replica that starts empty and applies what each pass
      hands out: the updates, then the drops. */
  datatype State = State(policies: Policies, hosts: Hosts, replica: Hosts)

  ghost function Next(lib: Library, s: State, step: Step): State {
    match step
    case PutStep(id, policy) => s.(policies := s.policies[id := policy])
    case DropStep(id) => s.(policies := s.policies - {id})
    case PassStep =>
      var next := Rebuild(lib, s.policies);
      s.(hosts := next, replica := (s.replica + Changed(s.hosts, next)) - Gone(s.hosts, next))
  }

  ghost function After(lib: Library, steps: seq<Step>): State {
    if steps == [] then State(map[], map[], map[])
    else Next(lib, After(lib, steps[..|steps| - 1]), steps[|steps| - 1])
  }

  /** Applying the differences between two passes turns the one into the other. */
  lemma DifferenceApplies(old_: Hosts, new_: Hosts)
    ensures (old_ + Changed(old_, new_)) - Gone(old_, new_) == new_
    ensures Changed(old_, new_).Keys !! Gone(old_, new_)
    ensures Changed(old_, new_) == map[] && Gone(old_, new_) == {} <==> old_ == new_
  {
    SameHosts((old_ + Changed(old_, new_)) - Gone(old_, new_), new_);
    if Changed(old_, new_) == map[] && Gone(old_, new_) == {} {
      assert forall name :: name in new_ ==> name !in Changed(old_, new_);
      SameHosts(old_, new_);
    }
  }

  lemma SameHosts(a: Hosts, b: Hosts)
    requires forall name :: Get(a, name) == Get(b, name)
    ensures a == b
  {
    SameMap(a, b);
  }

  /** Incremental equals full, for every run: the replica is what the last pass rebuilt; so right after a
      pass it is the rebuild from the current policies. */
  lemma {:induction false} IncrementalIsFull(lib: Library, steps: seq<Step>)
    ensures After(lib, steps).replica == After(lib, steps).hosts
    ensures steps != [] && steps[|steps| - 1].PassStep? ==>
              After(lib, steps).replica == Rebuild(lib, After(lib, steps).policies)
  {
    if steps != [] {
      IncrementalIsFull(lib, steps[..|steps| - 1]);
      NextInLine(lib, After(lib, steps[..|steps| - 1]), steps[|steps| - 1]);
      hide Next;
    }
  }

  lemma NextInLine(lib: Library, s: State, step: Step)
    requires s.replica == s.hosts
    ensures
      var s' := Next(lib, s, step);
      s'.replica == s'.hosts && (step.PassStep? ==> s'.hosts == Rebuild(lib, s'.policies))
  {
    hide Rebuild, Changed, Gone;
    if step.PassStep? {
      DifferenceApplies(s.hosts, Rebuild(lib, s.policies));
    }
  }

  /** What a pass after a run hands out. */
  ghost function Updates(lib: Library, steps: seq<Step>): Hosts {
    Changed(After(lib, steps).hosts, Rebuild(lib, After(lib, steps).policies))
  }

  ghost function Drops(lib: Library, steps: seq<Step>): set<string> {
    Gone(After(lib, steps).hosts, Rebuild(lib, After(lib, steps).policies))
  }

  /** After every run, a pass never hands out a host both as updated and as dropped, and a second pass right behind
      it hands out nothing. */
  lemma PassesDisjoint(lib: Library, steps: seq<Step>)
    ensures Updates(lib, steps).Keys !! Drops(lib, steps)
    ensures Updates(lib, steps + [PassStep]) == map[] && Drops(lib, steps + [PassStep]) == {}
  {
    AfterPass(lib, steps);
    var s, s' := After(lib, steps), After(lib, steps + [PassStep]);
    hide Rebuild, After, Next, Changed, Gone;
    DifferenceApplies(s.hosts, Rebuild(lib, s.policies));
    DifferenceApplies(s'.hosts, Rebuild(lib, s'.policies));
  }

  lemma AfterPass(lib: Library, steps: seq<Step>)
    ensures
      var s, s' := After(lib, steps), After(lib, steps + [PassStep]);
      s'.policies == s.policies && s'.hosts == Rebuild(lib, s.policies)
  {
    hide Rebuild;
    assert (steps + [PassStep])[..|steps|] == steps;
  }

  /** Taking after every pass matters: what two passes accumulate for one take, applied updates first, gives
      the second rebuild exactly when no host that the first pass dropped is back in the second. */
  lemma TwoPassesOneTake(first: Hosts, second: Hosts, third: Hosts)
    ensures
      (first + (Changed(first, second) + Changed(second, third))) - (Gone(first, second) + Gone(second, third)) == third
      <==> Gone(first, second) !! third.Keys
  {
    var taken := (first + (Changed(first, second) + Changed(second, third))) -
        (Gone(first, second) + Gone(second, third));
    if Gone(first, second) !! third.Keys {
      SameHosts(taken, third);
    } else {
      var name :| name in Gone(first, second) && name in third;
      assert name !in taken;
    }
  }
}
