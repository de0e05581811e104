/**
 The endpoints of the Envoy clusters: instances are added one by one into nested groups by cluster, region and
 zone, and a cluster's groups are read out as its load assignment.
 */
module EnvoyClusters {
  import opened Wrappers

  type Int32 = x: int | -0x8000_0000 <= x < 0x8000_0000

  const TRANSPORT_PROTOCOL_UDP := 2

  const TWO_TO_32 := 0x1_0000_0000

  datatype Instance = Instance(hostname: string, address: string, port: Int32, transport: int, region: string,
      zone: string)

  datatype Protocol = Tcp | Udp

  datatype Endpoint = Endpoint(hostname: string, protocol: Protocol, address: string, port: nat)

  datatype Locality = Locality(region: string, zone: string)

  datatype Group = Group(locality: Option<Locality>, endpoints: seq<Endpoint>)

  datatype Assignment = Assignment(clusterName: string, groups: seq<Group>)

  type Zones = map<string, seq<Endpoint>>

  type Regions = map<string, Zones>

  /** A group's key: its region and zone. */
  type Key = (string, string)

  function KeyOf(inst: Instance): Key {
    (inst.region, inst.zone)
  }

  /** The endpoint of an instance; the port is converted to 32 bits without sign. */
  function EndpointOf(inst: Instance): Endpoint {
    var protocol := if inst.transport == TRANSPORT_PROTOCOL_UDP then Udp else Tcp;
    Endpoint(inst.hostname, protocol, inst.address, inst.port % TWO_TO_32)
  }

  /** The locality of a group: none without a region, and then without the zone too. */
  function LocalityOf(key: Key): Option<Locality> {
    if |key.0| > 0 then Some(Locality(key.0, key.1)) else None
  }

  // ----- the flat reading -----

  function Endpoints(insts: seq<Instance>): seq<Endpoint> {
    if insts == [] then [] else Endpoints(insts[..|insts| - 1]) + [EndpointOf(insts[|insts| - 1])]
  }

  /** The endpoints of the instances with this key, in the order in which they were added. */
  function WithKey(insts: seq<Instance>, key: Key): seq<Endpoint> {
    if insts == [] then []
    else
      var last := insts[|insts| - 1];
      WithKey(insts[..|insts| - 1], key) + if KeyOf(last) == key then [EndpointOf(last)] else []
  }

  /** The endpoints a nested map holds under a key. */
  function Under(regions: Regions, key: Key): seq<Endpoint> {
    if key.0 in regions && key.1 in regions[key.0] then regions[key.0][key.1] else []
  }

  ghost predicate HasKey(regions: Regions, key: Key) {
    key.0 in regions && key.1 in regions[key.0]
  }

  /** The nested map groups exactly these instances, has no other key, and no region without a zone. */
  ghost predicate Groups(regions: Regions, insts: seq<Instance>) {
    && (forall key: Key ::
          && (HasKey(regions, key) <==> WithKey(insts, key) != [])
          && Under(regions, key) == WithKey(insts, key))
    && (forall region :: region in regions ==> regions[region] != map[])
  }

  lemma WithKeyMore(insts: seq<Instance>, inst: Instance, key: Key)
    ensures WithKey(insts + [inst], key) == WithKey(insts, key) + if KeyOf(inst) == key then [EndpointOf(inst)] else []
  {
    assert (insts + [inst])[..|insts|] == insts;
  }

  /** The nested map with one more endpoint. */
  function Grown(regions: Regions, inst: Instance): Regions {
    var zones := if inst.region in regions then regions[inst.region] else map[];
    var endpoints := if inst.zone in zones then zones[inst.zone] else [];
    regions[inst.region := zones[inst.zone := endpoints + [EndpointOf(inst)]]]
  }

  lemma GroupsMore(regions: Regions, insts: seq<Instance>, inst: Instance)
    requires Groups(regions, insts)
    ensures Groups(Grown(regions, inst), insts + [inst])
  {
    var grown := Grown(regions, inst);
    forall key: Key
      ensures HasKey(grown, key) <==> WithKey(insts + [inst], key) != []
      ensures Under(grown, key) == WithKey(insts + [inst], key)
    {
      WithKeyMore(insts, inst, key);
      assert HasKey(regions, key) <==> WithKey(insts, key) != [];
    }
  }

  // ----- conservation -----

  ghost predicate NoDuplicates<T>(s: seq<T>) {
    forall i, j :: 0 <= i < j < |s| ==> s[i] != s[j]
  }

  /** All endpoints of some groups, group by group. */
  function Flat(groups: seq<Group>): seq<Endpoint> {
    if groups == [] then [] else Flat(groups[..|groups| - 1]) + groups[|groups| - 1].endpoints
  }

  /** The groups of some keys, in the order of the keys. */
  function GroupsOf(insts: seq<Instance>, keys: seq<Key>): seq<Group> {
    if keys == [] then []
    else
      var last := keys[|keys| - 1];
      GroupsOf(insts, keys[..|keys| - 1]) + [Group(LocalityOf(last), WithKey(insts, last))]
  }

  lemma FlatMore(insts: seq<Instance>, keys: seq<Key>)
    requires keys != []
    ensures Flat(GroupsOf(insts, keys)) == Flat(GroupsOf(insts, keys[..|keys| - 1])) + WithKey(insts, keys[|keys| - 1])
  {
    var init := GroupsOf(insts, keys[..|keys| - 1]);
    assert GroupsOf(insts, keys)[..|init|] == init;
  }

  /** The endpoints of the instances with one of these keys, counted key by key. */
  ghost function Bag(insts: seq<Instance>, keys: seq<Key>): multiset<Endpoint> {
    if keys == [] then multiset{}
    else Bag(insts, keys[..|keys| - 1]) + multiset(WithKey(insts, keys[|keys| - 1]))
  }

  lemma {:induction false} FlatIsBag(insts: seq<Instance>, keys: seq<Key>)
    ensures multiset(Flat(GroupsOf(insts, keys))) == Bag(insts, keys)
  {
    if keys != [] {
      hide GroupsOf, Flat, WithKey;
      FlatIsBag(insts, keys[..|keys| - 1]);
      FlatMore(insts, keys);
    }
  }

  /** One more instance is one more endpoint in the group of its key and nowhere else. */
  lemma {:induction false} BagOneMore(insts: seq<Instance>, inst: Instance, keys: seq<Key>)
    requires NoDuplicates(keys)
    ensures Bag(insts + [inst], keys) ==
            Bag(insts, keys) + if KeyOf(inst) in keys then multiset{EndpointOf(inst)} else multiset{}
  {
    if keys != [] {
      var init, last := keys[..|keys| - 1], keys[|keys| - 1];
      InitAndLast(keys);
      hide WithKey, EndpointOf, KeyOf, NoDuplicates;
      BagOneMore(insts, inst, init);
      WithKeyMore(insts, inst, last);
    }
  }

  lemma InitAndLast(keys: seq<Key>)
    requires keys != [] && NoDuplicates(keys)
    ensures
      var init, last := keys[..|keys| - 1], keys[|keys| - 1];
      NoDuplicates(init) && last !in init && forall key :: key in keys <==> key in init || key == last
  {
    assert keys == keys[..|keys| - 1] + [keys[|keys| - 1]];
  }

  lemma {:induction false} NothingToGroup(keys: seq<Key>)
    ensures Bag([], keys) == multiset{}
  {
    if keys != [] {
      NothingToGroup(keys[..|keys| - 1]);
    }
  }

  /** Every instance has one of these keys. */
  ghost predicate Covered(insts: seq<Instance>, keys: seq<Key>) {
    forall i :: 0 <= i < |insts| ==> KeyOf(insts[i]) in keys
  }

  lemma {:induction false} BagIsAll(insts: seq<Instance>, keys: seq<Key>)
    requires NoDuplicates(keys) && Covered(insts, keys)
    ensures Bag(insts, keys) == multiset(Endpoints(insts))
  {
    if insts == [] {
      NothingToGroup(keys);
    } else {
      var init, last := insts[..|insts| - 1], insts[|insts| - 1];
      assert insts == init + [last] && Covered(init, keys) && KeyOf(last) in keys;
      hide Bag, EndpointOf, NoDuplicates, Covered;
      BagIsAll(init, keys);
      BagOneMore(init, last, keys);
    }
  }

  /** Conservation: grouping neither loses nor adds nor repeats an endpoint. */
  lemma Conserved(insts: seq<Instance>, keys: seq<Key>)
    requires NoDuplicates(keys) && Covered(insts, keys)
    ensures multiset(Flat(GroupsOf(insts, keys))) == multiset(Endpoints(insts))
  {
    FlatIsBag(insts, keys);
    BagIsAll(insts, keys);
  }

  /** Two groups of an assignment have the same locality exactly when neither has a region; else the locality
      tells the key. */
  lemma SameLocality(a: Key, b: Key)
    ensures LocalityOf(a) == LocalityOf(b) <==> a == b || (a.0 == "" && b.0 == "")
  {
  }

  /** The keys of the instances, each once. */
  ghost predicate Listing(keys: seq<Key>, insts: seq<Instance>) {
    NoDuplicates(keys) && forall key :: key in keys <==> WithKey(insts, key) != []
  }

  lemma {:induction false} KeyIsThere(insts: seq<Instance>, i: nat)
    requires i < |insts|
    ensures WithKey(insts, KeyOf(insts[i])) != []
  {
    if i < |insts| - 1 {
      KeyIsThere(insts[..|insts| - 1], i);
    }
  }

  /** What an assignment gives out: a permutation of all endpoints added, in one group for each distinct
      region and zone, each group in the order of addition. */
  lemma AssignmentConserves(insts: seq<Instance>, keys: seq<Key>)
    requires Listing(keys, insts)
    ensures multiset(Flat(GroupsOf(insts, keys))) == multiset(Endpoints(insts))
    ensures |GroupsOf(insts, keys)| == |keys|
    ensures forall i :: 0 <= i < |keys| ==>
              GroupsOf(insts, keys)[i] == Group(LocalityOf(keys[i]), WithKey(insts, keys[i]))
    ensures forall i :: 0 <= i < |insts| ==> KeyOf(insts[i]) in keys
  {
    forall i | 0 <= i < |insts|
      ensures KeyOf(insts[i]) in keys
    {
      KeyIsThere(insts, i);
    }
    Conserved(insts, keys);
    GroupsAt(insts, keys);
  }

  lemma {:induction false} GroupsAt(insts: seq<Instance>, keys: seq<Key>)
    ensures |GroupsOf(insts, keys)| == |keys|
    ensures forall i :: 0 <= i < |keys| ==>
              GroupsOf(insts, keys)[i] == Group(LocalityOf(keys[i]), WithKey(insts, keys[i]))
  {
    if keys != [] {
      GroupsAt(insts, keys[..|keys| - 1]);
    }
  }

  lemma GroupsOfMore(insts: seq<Instance>, keys: seq<Key>, key: Key)
    ensures GroupsOf(insts, keys + [key]) == GroupsOf(insts, keys) + [Group(LocalityOf(key), WithKey(insts, key))]
  {
    assert (keys + [key])[..|keys|] == keys;
  }

  // ----- endpoints and localities, field by field -----

  /** The endpoint has the host name, the address and the transport protocol of the instance, and its port, as a number
      without sign. */
  predicate TellsInstance(e: Endpoint, inst: Instance) {
    && e.hostname == inst.hostname && e.address == inst.address
    && (e.protocol == Udp <==> inst.transport == 2)
    && e.port == if inst.port >= 0 then inst.port else inst.port + 4294967296
  }

  lemma EndpointTells(inst: Instance)
    ensures TellsInstance(EndpointOf(inst), inst)
  {
  }

  /** The endpoints are those of the instances at the positions `picks`, which climb and are just those with the key. */
  ghost predicate TellsKey(insts: seq<Instance>, key: Key, endpoints: seq<Endpoint>, picks: seq<nat>) {
    && |endpoints| == |picks|
    && (forall j :: 0 <= j < |picks| ==> picks[j] < |insts| && TellsInstance(endpoints[j], insts[picks[j]]))
    && (forall i, j :: 0 <= i < j < |picks| ==> picks[i] < picks[j])
    && (forall i :: 0 <= i < |insts| ==> (i in picks <==> insts[i].region == key.0 && insts[i].zone == key.1))
  }

  /** One more instance with the key stands behind the others; one with another key changes nothing. */
  lemma TellsMore(insts: seq<Instance>, last: Instance, key: Key, endpoints: seq<Endpoint>, picks: seq<nat>,
      e: Endpoint)
    requires TellsKey(insts, key, endpoints, picks) && TellsInstance(e, last)
    ensures KeyOf(last) == key ==> TellsKey(insts + [last], key, endpoints + [e], picks + [|insts|])
    ensures KeyOf(last) != key ==> TellsKey(insts + [last], key, endpoints, picks)
  {
    hide TellsInstance;
    var more := insts + [last];
    assert forall j :: 0 <= j < |picks| ==> more[picks[j]] == insts[picks[j]];
    assert forall i: nat :: i in picks + [|insts|] <==> i in picks || i == |insts|;
    assert forall i :: i in picks ==> i < |insts|;
  }

  /** Each group's endpoints are those of its own instances, in the order of addition. */
  lemma {:induction false} GroupTells(insts: seq<Instance>, key: Key) returns (picks: seq<nat>)
    ensures TellsKey(insts, key, WithKey(insts, key), picks)
  {
    if insts == [] {
      picks := [];
    } else {
      var init, last := insts[..|insts| - 1], insts[|insts| - 1];
      assert init + [last] == insts;
      hide WithKey, TellsInstance, TellsKey, EndpointOf, KeyOf;
      var before := GroupTells(init, key);
      EndpointTells(last);
      var endpoints := WithKey(init, key);
      TellsMore(init, last, key, endpoints, before, EndpointOf(last));
      WithKeyMore(init, last, key);
      if KeyOf(last) == key {
        picks := before + [|init|];
      } else {
        picks := before;
        assert endpoints + [] == endpoints;
      }
    }
  }

  /** A group's locality: the region and the zone of its key, or none if the region is empty. */
  lemma LocalityTells(key: Key)
    ensures LocalityOf(key).None? <==> key.0 == ""
    ensures LocalityOf(key).Some? ==> LocalityOf(key).value.region == key.0 && LocalityOf(key).value.zone == key.1
  {
  }

  /** An assignment, told from the instances: as many groups as there are keys, each with the locality of its key and
      the endpoints of its instances. */
  lemma AssignmentTold(insts: seq<Instance>, keys: seq<Key>, i: nat)
    requires Listing(keys, insts) && i < |keys|
    ensures |GroupsOf(insts, keys)| == |keys|
    ensures
      var group := GroupsOf(insts, keys)[i];
      && (group.locality.None? <==> keys[i].0 == "")
      && (group.locality.Some? ==> group.locality.value == Locality(keys[i].0, keys[i].1))
      && exists picks :: TellsKey(insts, keys[i], group.endpoints, picks)
  {
    GroupsAt(insts, keys);
    LocalityTells(keys[i]);
    var picks := GroupTells(insts, keys[i]);
  }

  // ----- the class -----

  /** The keys listed so far: all but those of the regions left, and of the region at hand those zones left. */
  ghost predicate ListedSo(regions: Regions, keys: seq<Key>, left: set<string>, region: string, zones: set<string>) {
    && NoDuplicates(keys)
    && forall key: Key ::
         key in keys <==> HasKey(regions, key) && key.0 !in left && (key.0 == region ==> key.1 !in zones)
  }

  lemma ListedMore(regions: Regions, keys: seq<Key>, left: set<string>, region: string, zones: set<string>,
      zone: string)
    requires ListedSo(regions, keys, left, region, zones)
    requires region in regions && region !in left && zone in zones && zone in regions[region]
    ensures ListedSo(regions, keys + [(region, zone)], left, region, zones - {zone})
  {
    assert (region, zone) !in keys;
  }

  class ClustersEndpoints {
    var clusters: map<string, Regions>
    /** All instances added so far, by cluster, in the order of addition. */
    ghost var added: map<string, seq<Instance>>

    ghost predicate Valid()
      reads this
    {
      && clusters.Keys == added.Keys
      && forall name :: name in clusters ==> Groups(clusters[name], added[name])
    }

    constructor ()
      ensures Valid() && added == map[]
    {
      clusters, added := map[], map[];
    }

    method Add(clusterName: string, instances: seq<Instance>)
      requires Valid()
      modifies this
      ensures Valid()
      ensures
        var before := if clusterName in old(added) then old(added)[clusterName] else [];
        added == old(added)[clusterName := before + instances]
    {
      hide Groups;
      NoGroups();
      var cluster := if clusterName in clusters then clusters[clusterName] else map[];
      ghost var before := if clusterName in added then added[clusterName] else [];
      var i := 0;
      assert before + instances[..0] == before;
      while i < |instances|
        invariant 0 <= i <= |instances|
        invariant Groups(cluster, before + instances[..i])
        invariant clusters == old(clusters) && added == old(added)
      {
        var inst := instances[i];
        GroupsMore(cluster, before + instances[..i], inst);
        assert before + instances[..i + 1] == before + instances[..i] + [inst];
        var region := if inst.region in cluster then cluster[inst.region] else map[];
        var zone := if inst.zone in region then region[inst.zone] else [];
        var protocol := Tcp;
        if inst.transport == TRANSPORT_PROTOCOL_UDP {
          protocol := Udp;
        }
        zone := zone + [Endpoint(inst.hostname, protocol, inst.address, inst.port % TWO_TO_32)];
        region := region[inst.zone := zone];
        cluster := cluster[inst.region := region];
        i := i + 1;
      }
      assert instances[..i] == instances;
      clusters := clusters[clusterName := cluster];
      added := added[clusterName := before + instances];
    }

    /** The load assignment of a cluster, the groups in whatever order the maps yield them; `keys` is that
        order.  A cluster nothing was ever added to, not even no instances, has none. */
    method ToLoadAssignment(clusterName: string) returns (load: Option<Assignment>, ghost keys: seq<Key>)
      requires Valid()
      ensures load.None? <==> clusterName !in added
      ensures load.Some? ==>
        Listing(keys, added[clusterName]) && load.value == Assignment(clusterName, GroupsOf(added[clusterName], keys))
    {
      keys := [];
      if clusterName !in clusters {
        return None, keys;
      }
      hide GroupsOf, WithKey, LocalityOf;
      var regions := clusters[clusterName];
      ghost var insts := added[clusterName];
      var groups: seq<Group> := [];
      NoGroupsOf(insts);
      var left := regions.Keys;
      while left != {}
        invariant left <= regions.Keys
        invariant forall key: Key :: key in keys <==> HasKey(regions, key) && key.0 !in left
        invariant NoDuplicates(keys) && groups == GroupsOf(insts, keys)
        decreases left
      {
        var region :| region in left;
        left := left - {region};
        var zones := regions[region].Keys;
        while zones != {}
          invariant zones <= regions[region].Keys
          invariant ListedSo(regions, keys, left, region, zones) && groups == GroupsOf(insts, keys)
          decreases zones
        {
          hide NoDuplicates;
          var zone :| zone in zones;
          ListedMore(regions, keys, left, region, zones, zone);
          GroupsOfMore(insts, keys, (region, zone));
          GroupAt(regions, insts, region, zone);
          zones := zones - {zone};
          var locality := None;
          if |region| > 0 {
            locality := Some(Locality(region, ""));
            if |zone| > 0 {
              locality := Some(locality.value.(zone := zone));
            }
          }
          LocalityIs(region, zone, locality);
          groups := groups + [Group(locality, regions[region][zone])];
          keys := keys + [(region, zone)];
        }
      }
      load := Some(Assignment(clusterName, groups));
    }
  }

  lemma NoGroups()
    ensures Groups(map[], [])
  {
  }

  lemma NoGroupsOf(insts: seq<Instance>)
    ensures GroupsOf(insts, []) == []
  {
  }

  lemma GroupAt(regions: Regions, insts: seq<Instance>, region: string, zone: string)
    requires Groups(regions, insts) && region in regions && zone in regions[region]
    ensures regions[region][zone] == WithKey(insts, (region, zone))
  {
    assert Under(regions, (region, zone)) == WithKey(insts, (region, zone));
  }

  lemma LocalityIs(region: string, zone: string, locality: Option<Locality>)
    requires locality == if |region| > 0 then Some(Locality(region, if |zone| > 0 then zone else "")) else None
    ensures locality == LocalityOf((region, zone))
  {
  }
}
