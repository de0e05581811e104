/**
 The rebuilt virtual hosts told from the policies alone, field by field: where each route comes from, what stands in
 it, and in which order the routes stand.
 */
module VirtualHosts {
  import opened Wrappers
  import opened Ordering
  import opened Strings
  import opened EnvoyRoutes

  /** A policy is on the virtual host named after its ingress and its kebab-cased domain. */
  predicate IsOn(lib: Library, policies: Policies, name: string, id: string) {
    id in policies && policies[id].ingressName + "/" + lib.kebab(policies[id].domain) == name
  }

  /** Where a route on a host comes from: the `k`-th route of a policy on the host. */
  predicate Origin(lib: Library, policies: Policies, name: string, id: string, k: nat) {
    IsOn(lib, policies, name, id) && k < |policies[id].routes|
  }

  /** The name of a route: its bytes, the ingress and the domain, hashed. */
  function NameAt(lib: Library, policies: Policies, id: string, k: nat): string
    requires id in policies && k < |policies[id].routes|
  {
    lib.marshal(policies[id].routes[k]) + policies[id].ingressName + policies[id].domain
  }

  /** The route is made from that origin. */
  predicate MadeFrom(lib: Library, policies: Policies, e: EnvoyRoute, id: string, k: nat)
    requires id in policies && k < |policies[id].routes|
  {
    var r := policies[id].routes[k];
    && e.name == NameAt(lib, policies, id, k)
    && e.prefix == r.matchPrefix && e.timeout == r.timeout
    && e.cluster == r.targetService && e.rewrite == r.prefixRewrite
  }

  /** Origins are ordered by resource id and then by position. */
  predicate Earlier(id: string, k: nat, id': string, k': nat) {
    StringLess(id, id') || (id == id' && k < k')
  }

  /** No earlier origin on the host has the same route name. */
  ghost predicate FirstOrigin(lib: Library, policies: Policies, name: string, id: string, k: nat) {
    && Origin(lib, policies, name, id, k)
    && forall id', k' :: Origin(lib, policies, name, id', k') &&
         NameAt(lib, policies, id', k') == NameAt(lib, policies, id, k)
         ==> !Earlier(id', k', id, k)
  }

  /** The route is made from an origin that is the first of its name. */
  ghost predicate FromFirst(lib: Library, policies: Policies, name: string, e: EnvoyRoute, id: string, k: nat) {
    FirstOrigin(lib, policies, name, id, k) && MadeFrom(lib, policies, e, id, k)
  }

  // ----- the routes of the listed policies, one by one -----

  lemma MadeByConversion(lib: Library, policies: Policies, id: string, k: nat)
    requires id in policies && k < |policies[id].routes|
    ensures MadeFrom(lib, policies, ToEnvoyRoute(lib, policies[id], policies[id].routes[k]), id, k)
  {
    var p, r := policies[id], policies[id].routes[k];
    var suffixes := [p.ingressName, p.domain];
    assert suffixes[..1] == [p.ingressName] && suffixes[..1][..0] == [];
    assert HashRoute(lib, r, []) == lib.marshal(r);
    assert HashRoute(lib, r, [p.ingressName]) == lib.marshal(r) + p.ingressName;
  }

  /** The position of a listed policy's `k`-th route among all. */
  function Position(lib: Library, policies: Policies, ids: seq<string>, i: nat, k: nat): nat
    requires AllKnown(policies, ids) && i < |ids|
  {
    |RoutesOf(lib, policies, ids[..i])| + k
  }

  lemma {:induction false} RouteAt(lib: Library, policies: Policies, ids: seq<string>, i: nat, k: nat)
    requires AllKnown(policies, ids) && i < |ids| && k < |policies[ids[i]].routes|
    ensures
      var p := Position(lib, policies, ids, i, k);
      && p < |RoutesOf(lib, policies, ids)|
      && RoutesOf(lib, policies, ids)[p] == ToEnvoyRoute(lib, policies[ids[i]], policies[ids[i]].routes[k])
  {
    var init := ids[..|ids| - 1];
    if i < |init| {
      assert init[..i] == ids[..i];
      RouteAt(lib, policies, init, i, k);
    } else {
      assert ids[..i] == init;
    }
  }

  /** Every position is that of some policy's route. */
  lemma {:induction false} PositionOf(lib: Library, policies: Policies, ids: seq<string>, p: nat) returns (i: nat,
      k: nat)
    requires AllKnown(policies, ids) && p < |RoutesOf(lib, policies, ids)|
    ensures i < |ids| && k < |policies[ids[i]].routes| && p == Position(lib, policies, ids, i, k)
  {
    var init := ids[..|ids| - 1];
    if p < |RoutesOf(lib, policies, init)| {
      i, k := PositionOf(lib, policies, init, p);
      assert init[..i] == ids[..i] && init[i] == ids[i];
    } else {
      i, k := |ids| - 1, p - |RoutesOf(lib, policies, init)|;
    }
  }

  lemma {:induction false} LongerHasMore(lib: Library, policies: Policies, ids: seq<string>, i: nat)
    requires AllKnown(policies, ids) && i < |ids|
    ensures |RoutesOf(lib, policies, ids[..i])| + |policies[ids[i]].routes| <= |RoutesOf(lib, policies, ids)|
  {
    var init := ids[..|ids| - 1];
    if i < |init| {
      assert init[..i] == ids[..i] && init[i] == ids[i];
      LongerHasMore(lib, policies, init, i);
    } else {
      assert ids[..i] == init;
    }
  }

  /** Routes of earlier policies stand earlier. */
  lemma PositionsInOrder(lib: Library, policies: Policies, ids: seq<string>, i: nat, k: nat, i': nat, k': nat)
    requires AllKnown(policies, ids) && i < |ids| && i' < |ids|
    requires k < |policies[ids[i]].routes| && k' < |policies[ids[i']].routes|
    ensures Position(lib, policies, ids, i, k) < Position(lib, policies, ids, i', k') <==> i < i' || (i == i' && k < k')
  {
    if i < i' {
      LongerHasMore(lib, policies, ids[..i'], i);
      assert ids[..i'][..i] == ids[..i];
    } else if i' < i {
      LongerHasMore(lib, policies, ids[..i], i');
      assert ids[..i][..i'] == ids[..i'];
    }
  }

  // ----- origins and positions -----

  lemma InOrderOfIds(on: seq<string>, i: nat, j: nat)
    requires Increasing(StringLess, on) && i < |on| && j < |on|
    ensures StringLess(on[i], on[j]) <==> i < j
    ensures on[i] == on[j] <==> i == j
  {
    StringOrder();
    hide StringLess;
    if i < j {
      assert StringLess(on[i], on[j]);
    } else if j < i {
      assert StringLess(on[j], on[i]);
    }
  }

  lemma PlaceOnHost(lib: Library, policies: Policies, name: string, on: seq<string>, id: string) returns (i: nat)
    requires AllOn(lib, policies, name, on) && IsOn(lib, policies, name, id)
    ensures i < |on| && on[i] == id
  {
    assert id in on;
    i :| 0 <= i < |on| && on[i] == id;
  }

  /** A position of the host's routes in front of another one is that of an earlier origin, and the other way round. */
  lemma EarlierIsBefore(lib: Library, policies: Policies, on: seq<string>, i: nat, k: nat, i': nat, k': nat)
    requires AllKnown(policies, on) && Increasing(StringLess, on) && i < |on| && i' < |on|
    requires k < |policies[on[i]].routes| && k' < |policies[on[i']].routes|
    ensures Position(lib, policies, on, i, k) < Position(lib, policies, on, i', k') <==> Earlier(on[i], k, on[i'], k')
  {
    InOrderOfIds(on, i, i');
    PositionsInOrder(lib, policies, on, i, k, i', k');
  }

  lemma NameBefore(all: seq<EnvoyRoute>, p: nat, name: string)
    requires p <= |all|
    ensures name in Names(all[..p]) <==> exists q :: 0 <= q < p && all[q].name == name
  {
    if name in Names(all[..p]) {
      var r :| r in all[..p] && r.name == name;
      var q :| 0 <= q < p && all[..p][q] == r;
      assert all[q].name == name;
    }
    if q :| 0 <= q < p && all[q].name == name {
      assert all[..p][q] in all[..p];
    }
  }

  /** A route that comes first by its name has an origin that does. */
  lemma FirstAtIsFirstOrigin(lib: Library, policies: Policies, name: string, on: seq<string>, i: nat, k: nat)
    requires AllOn(lib, policies, name, on) && i < |on| && k < |policies[on[i]].routes|
    ensures
      var all, p := RoutesOf(lib, policies, on), Position(lib, policies, on, i, k);
      && p < |all| && MadeFrom(lib, policies, all[p], on[i], k)
      && (FirstAt(all, all[p], p) <==> FirstOrigin(lib, policies, name, on[i], k))
  {
    var all, p := RoutesOf(lib, policies, on), Position(lib, policies, on, i, k);
    RouteAt(lib, policies, on, i, k);
    MadeByConversion(lib, policies, on[i], k);
    NameBefore(all, p, all[p].name);
    assert IsOn(lib, policies, name, on[i]);
    if !FirstAt(all, all[p], p) {
      var q :| 0 <= q < p && all[q].name == all[p].name;
      SameNameEarlier(lib, policies, name, on, i, k, q);
    }
    if !FirstOrigin(lib, policies, name, on[i], k) {
      var id', k' :| Origin(lib, policies, name, id', k') && Earlier(id', k', on[i], k)
                     && NameAt(lib, policies, id', k') == NameAt(lib, policies, on[i], k);
      var j := PlaceOnHost(lib, policies, name, on, id');
      RouteAt(lib, policies, on, j, k');
      MadeByConversion(lib, policies, id', k');
      EarlierIsBefore(lib, policies, on, j, k', i, k);
      assert all[Position(lib, policies, on, j, k')].name == all[p].name;
    }
  }

  lemma SameNameEarlier(lib: Library, policies: Policies, name: string, on: seq<string>, i: nat, k: nat, q: nat)
    requires AllOn(lib, policies, name, on) && i < |on| && k < |policies[on[i]].routes|
    requires q < Position(lib, policies, on, i, k) < |RoutesOf(lib, policies, on)|
    requires RoutesOf(lib, policies, on)[q].name == NameAt(lib, policies, on[i], k)
    ensures !FirstOrigin(lib, policies, name, on[i], k)
  {
    var j, k' := PositionOf(lib, policies, on, q);
    RouteAt(lib, policies, on, j, k');
    MadeByConversion(lib, policies, on[j], k');
    EarlierIsBefore(lib, policies, on, j, k', i, k);
    assert Origin(lib, policies, name, on[j], k');
  }

  // ----- the theorem -----

  /** The routes of a host: each made from the first origin of its name, one for every such origin, in their order. */
  ghost predicate RoutesTold(lib: Library, policies: Policies, name: string, routes: seq<EnvoyRoute>) {
    && (forall e :: e in routes ==> exists id, k :: FromFirst(lib, policies, name, e, id, k))
    && (forall id, k :: FirstOrigin(lib, policies, name, id, k) ==> exists e ::
         e in routes && FromFirst(lib, policies, name, e, id, k))
    && (forall a, b :: 0 <= a < b < |routes| ==> StandInOrder(lib, policies, name, routes[a], routes[b]))
  }

  ghost predicate StandInOrder(lib: Library, policies: Policies, name: string, e: EnvoyRoute, later: EnvoyRoute) {
    exists id, k, id', k' ::
      && FromFirst(lib, policies, name, e, id, k) && FromFirst(lib, policies, name, later, id', k')
      && Earlier(id, k, id', k')
  }

  /** The least id on a host gives its domain and its CORS. */
  ghost predicate LeastOn(lib: Library, policies: Policies, name: string, id: string) {
    && IsOn(lib, policies, name, id)
    && forall other :: IsOn(lib, policies, name, other) && other != id ==> StringLess(id, other)
  }

  ghost predicate HostTold(lib: Library, policies: Policies, name: string, host: VirtualHost) {
    && host.name == name && RoutesTold(lib, policies, name, host.routes)
    && exists id :: LeastOn(lib, policies, name, id)
                    && host.domains == [policies[id].domain] && host.cors == policies[id].cors
  }

  /** A position that comes first gives an origin that does. */
  lemma OriginOfFirst(lib: Library, policies: Policies, name: string, on: seq<string>, e: EnvoyRoute, p: nat)
    returns (i: nat, k: nat)
    requires AllOn(lib, policies, name, on) && FirstAt(RoutesOf(lib, policies, on), e, p)
    ensures i < |on| && k < |policies[on[i]].routes| && p == Position(lib, policies, on, i, k)
    ensures FromFirst(lib, policies, name, e, on[i], k)
  {
    i, k := PositionOf(lib, policies, on, p);
    FirstAtIsFirstOrigin(lib, policies, name, on, i, k);
  }

  lemma KeptInOrder(lib: Library, policies: Policies, name: string, on: seq<string>, e: EnvoyRoute, later: EnvoyRoute)
    requires AllOn(lib, policies, name, on) && InOrder(RoutesOf(lib, policies, on), e, later)
    ensures StandInOrder(lib, policies, name, e, later)
  {
    var all := RoutesOf(lib, policies, on);
    var p, q :| p < q && FirstAt(all, e, p) && FirstAt(all, later, q);
    var i, k := OriginOfFirst(lib, policies, name, on, e, p);
    var i', k' := OriginOfFirst(lib, policies, name, on, later, q);
    EarlierIsBefore(lib, policies, on, i, k, i', k');
  }

  lemma RoutesAreTold(lib: Library, policies: Policies, name: string, on: seq<string>, routes: seq<EnvoyRoute>)
    requires AllOn(lib, policies, name, on) && FirstOnly(RoutesOf(lib, policies, on), routes)
    ensures RoutesTold(lib, policies, name, routes)
  {
    var all := RoutesOf(lib, policies, on);
    forall e | e in routes
      ensures exists id, k :: FromFirst(lib, policies, name, e, id, k)
    {
      var p :| FirstAt(all, e, p);
      var i, k := OriginOfFirst(lib, policies, name, on, e, p);
    }
    forall id, k | FirstOrigin(lib, policies, name, id, k)
      ensures exists e :: e in routes && FromFirst(lib, policies, name, e, id, k)
    {
      var i := PlaceOnHost(lib, policies, name, on, id);
      FirstAtIsFirstOrigin(lib, policies, name, on, i, k);
      var p := Position(lib, policies, on, i, k);
      assert FirstAt(all, all[p], p) && all[p] in routes;
    }
    forall a, b | 0 <= a < b < |routes|
      ensures StandInOrder(lib, policies, name, routes[a], routes[b])
    {
      KeptInOrder(lib, policies, name, on, routes[a], routes[b]);
    }
  }

  /** For every policy map, the rebuilt hosts are told from the policies: which there are, their domain and CORS, and
      their routes, field by field and in order. */
  lemma RebuildTold(lib: Library, policies: Policies)
    ensures forall name :: name in Rebuild(lib, policies) <==> exists id :: IsOn(lib, policies, name, id)
    ensures forall name :: name in Rebuild(lib, policies) ==>
            HostTold(lib, policies, name, Rebuild(lib, policies)[name])
  {
    RebuildCanonical(lib, policies);
    forall name | name in Rebuild(lib, policies)
      ensures exists id :: IsOn(lib, policies, name, id)
      ensures HostTold(lib, policies, name, Rebuild(lib, policies)[name])
    {
      var on := On(lib, policies, SortedKeys(policies), name);
      CanonicalTold(lib, policies, name, Rebuild(lib, policies)[name], on);
    }
    forall name, id | IsOn(lib, policies, name, id)
      ensures name in Rebuild(lib, policies)
    {
      assert HostName(lib, policies[id]) == name;
    }
  }

  lemma CanonicalTold(lib: Library, policies: Policies, name: string, host: VirtualHost, on: seq<string>)
    requires AllKnown(policies, on) && Canonical(lib, policies, name, host, on)
    ensures HostTold(lib, policies, name, host) && exists id :: IsOn(lib, policies, name, id)
  {
    RoutesAreTold(lib, policies, name, on, host.routes);
    assert on[0] in on && IsOn(lib, policies, name, on[0]);
    assert LeastOn(lib, policies, name, on[0]);
    hide RoutesTold;
  }

  /** Every route of every policy has a route of its name on the policy's host. */
  lemma EveryRouteServed(lib: Library, policies: Policies, name: string, id: string, k: nat)
    requires Origin(lib, policies, name, id, k)
    ensures name in Rebuild(lib, policies)
    ensures exists e :: e in Rebuild(lib, policies)[name].routes && e.name == NameAt(lib, policies, id, k)
  {
    RebuildCanonical(lib, policies);
    assert HostName(lib, policies[id]) == name;
    var on := On(lib, policies, SortedKeys(policies), name);
    var host := Rebuild(lib, policies)[name];
    var all := RoutesOf(lib, policies, on);
    hide Rebuild;
    var i := PlaceOnHost(lib, policies, name, on, id);
    RouteAt(lib, policies, on, i, k);
    MadeByConversion(lib, policies, id, k);
    var r := all[Position(lib, policies, on, i, k)];
    assert r in all && r.name in Names(all);
    assert r.name in Names(host.routes);
  }

  /** The policy that a run last put under an id, unless it dropped it since. */
  function LastPut(steps: seq<Step>, id: string): Option<Policy> {
    if steps == [] then None
    else
      match steps[|steps| - 1]
      case PutStep(other, policy) => if other == id then Some(policy) else LastPut(steps[..|steps| - 1], id)
      case DropStep(other) => if other == id then None else LastPut(steps[..|steps| - 1], id)
      case PassStep => LastPut(steps[..|steps| - 1], id)
  }

  /** The current policies of a run are those last put and not dropped since. */
  lemma {:induction false} PoliciesTold(lib: Library, steps: seq<Step>, id: string)
    ensures Get(After(lib, steps).policies, id) == LastPut(steps, id)
  {
    if steps != [] {
      hide Rebuild;
      PoliciesTold(lib, steps[..|steps| - 1], id);
    }
  }
}
