/**
 A source matcher, exact and prefix trees together, against two flat tables searched naively.
 */
module SourceMatching {
  import opened Wrappers
  import opened Matcher

  datatype Verb = AnyMethod | Named(name: string)

  /** What a policy is filed under. */
  datatype RouteKey = GrpcKey(exact: bool, name: string) | HttpKey(exact: bool, path: string, verb: Verb)

  predicate Sourced(p: GatewayPolicy) {
    !p.source.NoSource?
  }

  function VerbOf(number: int): Verb {
    if number == 0 then AnyMethod else Named(HttpMethodName(number))
  }

  function KeyOf(p: GatewayPolicy): RouteKey
    requires Sourced(p)
  {
    match p.source
    case Grpc(name, exact) => GrpcKey(exact, name)
    case Http(verb, path, exact) => HttpKey(exact, path, VerbOf(verb))
  }

  /** The source of a policy and whether it asks for an exact match. */
  function SourceOf(p: GatewayPolicy): (Source, bool)
    requires Sourced(p)
  {
    match p.source
    case Grpc(name, exact) => (GrpcSource(name), exact)
    case Http(verb, path, exact) => (HttpSource(verb, path), exact)
  }

  // ----- the two trees -----

  datatype Trees = Trees(exact: Node, prefix: Node)

  const NoTrees := Trees(FreshNode(true), FreshNode(false))

  function TreesAdded(t: Trees, p: GatewayPolicy): Trees
    requires Sourced(p)
  {
    var (source, exact) := SourceOf(p);
    if exact then t.(exact := Inserted(t.exact, p, source)) else t.(prefix := Inserted(t.prefix, p, source))
  }

  function TreesDropped(t: Trees, p: GatewayPolicy): Trees
    requires Sourced(p)
  {
    var (source, exact) := SourceOf(p);
    if exact then t.(exact := Removed(t.exact, source)) else t.(prefix := Removed(t.prefix, source))
  }

  function MatchTrees(t: Trees, keys: seq<string>): Option<GatewayPolicy>
    requires keys != []
  {
    var found := MatchNode(t.exact, keys);
    if found.Some? then found else MatchNode(t.prefix, keys)
  }

  class SourceMatcher {
    const exact: PolicyMatcher
    const prefix: PolicyMatcher

    ghost function Footprint(): set<object>
      reads exact, prefix
    {
      exact.footprint + prefix.footprint
    }

    ghost predicate Valid()
      reads exact, prefix, exact.footprint, prefix.footprint
    {
      exact.Valid() && prefix.Valid() && exact.footprint !! prefix.footprint
    }

    ghost function View(): Trees
      reads exact, prefix
    {
      Trees(exact.view, prefix.view)
    }

    constructor ()
      ensures Valid() && fresh(Footprint()) && View() == NoTrees
    {
      exact := new PolicyMatcher(true);
      prefix := new PolicyMatcher(false);
    }

    method AddPolicy(p: GatewayPolicy)
      requires Valid() && Sourced(p)
      modifies Footprint()
      ensures Valid() && fresh(Footprint() - old(Footprint()))
      ensures View() == TreesAdded(old(View()), p)
    {
      var (source, exactly) := SourceOf(p);
      if exactly {
        exact.Insert(p, source);
      } else {
        prefix.Insert(p, source);
      }
    }

    method DropPolicy(p: GatewayPolicy)
      requires Valid() && Sourced(p)
      modifies Footprint()
      ensures Valid() && Footprint() == old(Footprint())
      ensures View() == TreesDropped(old(View()), p)
    {
      var (source, exactly) := SourceOf(p);
      if exactly {
        exact.Remove(source);
      } else {
        prefix.Remove(source);
      }
    }

    function MatchPolicy(keys: seq<string>): (r: Option<GatewayPolicy>)
      requires Valid() && keys != []
      reads exact, prefix, exact.footprint, prefix.footprint
      ensures r == MatchTrees(View(), keys)
    {
      var found := exact.Match(keys);
      if found.Some? then found else prefix.Match(keys)
    }
  }

  // ----- flat tables -----

  /** The policies by key, and the prefix paths ever inserted. */
  datatype Flat = Flat(table: map<RouteKey, GatewayPolicy>, paths: set<string>)

  const NoFlat := Flat(map[], {})

  function FlatAdded(f: Flat, p: GatewayPolicy): Flat
    requires Sourced(p)
  {
    Flat(f.table[KeyOf(p) := p],
         if p.source.Http? && !p.source.exactPathMatch then f.paths + {p.source.path} else f.paths)
  }

  function FlatDropped(f: Flat, p: GatewayPolicy): Flat
    requires Sourced(p)
  {
    f.(table := f.table - {KeyOf(p)})
  }

  /** The policy of a path for a method: the one filed under the method, else the one for any method. */
  function HttpLookup(f: Flat, exact: bool, path: string, verb: string): Option<GatewayPolicy> {
    if HttpKey(exact, path, Named(verb)) in f.table then Some(f.table[HttpKey(exact, path, Named(verb))])
    else if IsHttpMethodName(verb) then Get(f.table, HttpKey(exact, path, AnyMethod))
    else None
  }

  function FlatHttpMatch(f: Flat, path: string, verb: string): Option<GatewayPolicy> {
    if HttpLookup(f, true, path, verb).Some? then HttpLookup(f, true, path, verb)
    else
      match LongestPrefix(f.paths, path)
      case None => None
      case Some(longest) => HttpLookup(f, false, longest, verb)
  }

  function PrefixNames(f: Flat): set<string> {
    set k | k in f.table && k.GrpcKey? && !k.exact :: k.name
  }

  function FlatGrpcMatch(f: Flat, name: string): Option<GatewayPolicy> {
    if GrpcKey(true, name) in f.table then Some(f.table[GrpcKey(true, name)])
    else
      match LongestPrefix(PrefixNames(f), name)
      case None => None
      case Some(longest) => Get(f.table, GrpcKey(false, longest))
  }

  // ----- trees against tables -----

  function Root(t: Trees, exact: bool): Node {
    if exact then t.exact else t.prefix
  }

  /** The policy a path's node holds for a verb. */
  function VerbAt(nested: Node, verb: Verb): Option<GatewayPolicy> {
    match verb
    case AnyMethod => nested.policy
    case Named(name) => if name in nested.tree then nested.tree[name].policy else None
  }

  /** The policy that the trees hold under a key. */
  function EntryAt(t: Trees, k: RouteKey): Option<GatewayPolicy> {
    match k
    case GrpcKey(exact, name) =>
      if name in Root(t, exact).tree then Root(t, exact).tree[name].policy else None
    case HttpKey(exact, path, verb) =>
      if path !in Root(t, exact).tree then None
      else VerbAt(Root(t, exact).tree[path], verb)
  }

  predicate Rooted(t: Trees) {
    t.exact.exact && !t.prefix.exact && t.exact.policy.None? && t.prefix.policy.None?
  }

  /** Every node under the root of a gRPC tree holds a policy. */
  ghost predicate GrpcShaped(n: Node) {
    forall name :: name in n.tree ==> n.tree[name].policy.Some?
  }

  /** Every node under the root of an HTTP tree matches exactly, and every node under those holds a policy. */
  ghost predicate HttpShaped(n: Node) {
    forall path :: path in n.tree ==> n.tree[path].exact && GrpcShaped(n.tree[path])
  }

  ghost predicate HoldsGrpc(t: Trees, f: Flat) {
    && Rooted(t) && GrpcShaped(t.exact) && GrpcShaped(t.prefix)
    && forall exact, name :: EntryAt(t, GrpcKey(exact, name)) == Get(f.table, GrpcKey(exact, name))
  }

  ghost predicate HoldsHttp(t: Trees, f: Flat) {
    && Rooted(t) && HttpShaped(t.exact) && HttpShaped(t.prefix)
    && t.prefix.tree.Keys == f.paths
    && forall exact, path, verb :: EntryAt(t, HttpKey(exact, path, verb)) == Get(f.table, HttpKey(exact, path, verb))
  }

  lemma GrpcAdded(t: Trees, f: Flat, p: GatewayPolicy)
    requires HoldsGrpc(t, f) && p.source.Grpc?
    ensures HoldsGrpc(TreesAdded(t, p), FlatAdded(f, p))
  {
  }

  lemma GrpcDropped(t: Trees, f: Flat, p: GatewayPolicy)
    requires HoldsGrpc(t, f) && p.source.Grpc?
    ensures HoldsGrpc(TreesDropped(t, p), FlatDropped(f, p))
  {
  }

  /** Inserting and removing under a path changes the node at one verb only. */
  lemma VerbChanged(nested: Node, p: GatewayPolicy, number: int)
    requires nested.exact && GrpcShaped(nested)
    ensures
      var put, cut := Inserted(nested, p, MethodSource(number)), Removed(nested, MethodSource(number));
      && put.exact && GrpcShaped(put) && cut.exact && GrpcShaped(cut)
      && (forall v :: VerbAt(put, v) == if v == VerbOf(number) then Some(p) else VerbAt(nested, v))
      && (forall v :: VerbAt(cut, v) == if v == VerbOf(number) then None else VerbAt(nested, v))
  {
  }

  /** Adding under a path changes the entries of that path's node at one verb only. */
  lemma HttpEntriesAdded(t: Trees, p: GatewayPolicy, k: RouteKey)
    requires Rooted(t) && HttpShaped(t.exact) && HttpShaped(t.prefix) && p.source.Http? && k.HttpKey?
    ensures EntryAt(TreesAdded(t, p), k) == if k == KeyOf(p) then Some(p) else EntryAt(t, k)
  {
    var root := Root(t, p.source.exactPathMatch);
    var nested := if p.source.path in root.tree then root.tree[p.source.path] else FreshNode(true);
    VerbChanged(nested, p, p.source.verb);
    var put := Inserted(nested, p, MethodSource(p.source.verb));
    hide HttpShaped, GrpcShaped;
    assert Root(TreesAdded(t, p), p.source.exactPathMatch).tree == root.tree[p.source.path := put];
    assert VerbAt(put, k.verb) == if k.verb == VerbOf(p.source.verb) then Some(p) else VerbAt(nested, k.verb);
  }

  lemma HttpShapesAdded(t: Trees, p: GatewayPolicy)
    requires Rooted(t) && HttpShaped(t.exact) && HttpShaped(t.prefix) && p.source.Http?
    ensures
      var t' := TreesAdded(t, p);
      && Rooted(t') && HttpShaped(t'.exact) && HttpShaped(t'.prefix)
      && t'.prefix.tree.Keys == t.prefix.tree.Keys + if p.source.exactPathMatch then {} else {p.source.path}
  {
    var root := Root(t, p.source.exactPathMatch);
    var nested := if p.source.path in root.tree then root.tree[p.source.path] else FreshNode(true);
    VerbChanged(nested, p, p.source.verb);
  }

  lemma HttpAdded(t: Trees, f: Flat, p: GatewayPolicy)
    requires HoldsHttp(t, f) && p.source.Http?
    ensures HoldsHttp(TreesAdded(t, p), FlatAdded(f, p))
  {
    HttpShapesAdded(t, p);
    var t', f' := TreesAdded(t, p), FlatAdded(f, p);
    hide TreesAdded, HttpShaped, Rooted, EntryAt;
    forall exact, path, verb
      ensures EntryAt(t', HttpKey(exact, path, verb)) == Get(f'.table, HttpKey(exact, path, verb))
    {
      HttpEntriesAdded(t, p, HttpKey(exact, path, verb));
      assert EntryAt(t, HttpKey(exact, path, verb)) == Get(f.table, HttpKey(exact, path, verb));
    }
  }

  lemma HttpDropped(t: Trees, f: Flat, p: GatewayPolicy)
    requires HoldsHttp(t, f) && p.source.Http?
    ensures HoldsHttp(TreesDropped(t, p), FlatDropped(f, p))
  {
    var t', f' := TreesDropped(t, p), FlatDropped(f, p);
    var root := Root(t, p.source.exactPathMatch);
    if p.source.path in root.tree {
      var nested := root.tree[p.source.path];
      VerbChanged(nested, p, p.source.verb);
      assert Root(t', p.source.exactPathMatch).tree ==
          root.tree[p.source.path := Removed(nested, MethodSource(p.source.verb))];
    } else {
      assert t' == t;
    }
    forall exact, path, verb
      ensures EntryAt(t', HttpKey(exact, path, verb)) == Get(f'.table, HttpKey(exact, path, verb))
    {
      assert EntryAt(t, HttpKey(exact, path, verb)) == Get(f.table, HttpKey(exact, path, verb));
    }
  }

  /** Filing a policy of one kind leaves what the trees of the other kind hold. */
  lemma OtherKindHolds(t: Trees, f: Flat, p: GatewayPolicy)
    ensures HoldsHttp(t, f) && p.source.Grpc? ==> HoldsHttp(t, FlatAdded(f, p)) && HoldsHttp(t, FlatDropped(f, p))
    ensures HoldsGrpc(t, f) && p.source.Http? ==> HoldsGrpc(t, FlatAdded(f, p)) && HoldsGrpc(t, FlatDropped(f, p))
  {
  }

  /** Under one path, the nested match is the two-step lookup. */
  lemma NestedMatch(t: Trees, f: Flat, exact: bool, path: string, verb: string)
    requires HoldsHttp(t, f) && path in Root(t, exact).tree
    ensures MatchNode(Root(t, exact).tree[path], [verb]) == HttpLookup(f, exact, path, verb)
  {
    assert EntryAt(t, HttpKey(exact, path, Named(verb))) == Get(f.table, HttpKey(exact, path, Named(verb)));
    assert EntryAt(t, HttpKey(exact, path, AnyMethod)) == Get(f.table, HttpKey(exact, path, AnyMethod));
  }

  lemma HttpMatchHolds(t: Trees, f: Flat, path: string, verb: string)
    requires HoldsHttp(t, f)
    ensures MatchTrees(t, [path, verb]) == FlatHttpMatch(f, path, verb)
  {
    assert [path, verb][1..] == [verb];
    if path in t.exact.tree {
      NestedMatch(t, f, true, path, verb);
    } else {
      assert EntryAt(t, HttpKey(true, path, Named(verb))).None?;
      assert EntryAt(t, HttpKey(true, path, AnyMethod)).None?;
    }
    var longest := LongestPrefix(f.paths, path);
    if longest.Some? {
      NestedMatch(t, f, false, longest.value, verb);
    }
  }

  lemma GrpcMatchHolds(t: Trees, f: Flat, name: string)
    requires HoldsGrpc(t, f)
    ensures MatchTrees(t, [name]) == FlatGrpcMatch(f, name)
  {
    forall n: string
      ensures n in t.prefix.tree.Keys <==> n in PrefixNames(f)
      ensures n in t.exact.tree.Keys <==> GrpcKey(true, n) in f.table
    {
      assert EntryAt(t, GrpcKey(false, n)) == Get(f.table, GrpcKey(false, n));
      assert EntryAt(t, GrpcKey(true, n)) == Get(f.table, GrpcKey(true, n));
      if GrpcKey(false, n) in f.table {
        var k := GrpcKey(false, n);
        assert k in f.table && k.GrpcKey? && !k.exact && k.name == n;
      }
    }
    assert t.prefix.tree.Keys == PrefixNames(f);
    assert EntryAt(t, GrpcKey(true, name)) == Get(f.table, GrpcKey(true, name));
  }

  // ----- histories -----

  datatype PolicyOp = Add(policy: GatewayPolicy) | Drop(policy: GatewayPolicy)

  ghost predicate AllHttp(ops: seq<PolicyOp>) {
    forall op :: op in ops ==> op.policy.source.Http?
  }

  ghost predicate AllGrpc(ops: seq<PolicyOp>) {
    forall op :: op in ops ==> op.policy.source.Grpc?
  }

  function TreesAfter(ops: seq<PolicyOp>): Trees
    requires forall op :: op in ops ==> Sourced(op.policy)
  {
    if ops == [] then NoTrees
    else
      match ops[|ops| - 1]
      case Add(p) => TreesAdded(TreesAfter(ops[..|ops| - 1]), p)
      case Drop(p) => TreesDropped(TreesAfter(ops[..|ops| - 1]), p)
  }

  function FlatAfter(ops: seq<PolicyOp>): Flat
    requires forall op :: op in ops ==> Sourced(op.policy)
  {
    if ops == [] then NoFlat else FlatStep(FlatAfter(ops[..|ops| - 1]), ops[|ops| - 1])
  }

  function FlatStep(f: Flat, op: PolicyOp): Flat
    requires Sourced(op.policy)
  {
    match op
    case Add(p) => FlatAdded(f, p)
    case Drop(p) => FlatDropped(f, p)
  }

  lemma {:induction false} HttpHistory(ops: seq<PolicyOp>)
    requires AllHttp(ops)
    ensures HoldsHttp(TreesAfter(ops), FlatAfter(ops))
  {
    if ops != [] {
      var init := ops[..|ops| - 1];
      HttpHistory(init);
      HttpAdded(TreesAfter(init), FlatAfter(init), ops[|ops| - 1].policy);
      HttpDropped(TreesAfter(init), FlatAfter(init), ops[|ops| - 1].policy);
    }
  }

  lemma {:induction false} GrpcHistory(ops: seq<PolicyOp>)
    requires AllGrpc(ops)
    ensures HoldsGrpc(TreesAfter(ops), FlatAfter(ops))
  {
    if ops != [] {
      var init := ops[..|ops| - 1];
      GrpcHistory(init);
      GrpcAdded(TreesAfter(init), FlatAfter(init), ops[|ops| - 1].policy);
      GrpcDropped(TreesAfter(init), FlatAfter(init), ops[|ops| - 1].policy);
    }
  }

  /** HTTP matching refines flat tables, after every history of adds and drops. */
  lemma HttpMatchRefines(ops: seq<PolicyOp>, path: string, verb: string)
    requires AllHttp(ops)
    ensures MatchTrees(TreesAfter(ops), [path, verb]) == FlatHttpMatch(FlatAfter(ops), path, verb)
  {
    HttpHistory(ops);
    HttpMatchHolds(TreesAfter(ops), FlatAfter(ops), path, verb);
  }

  /** gRPC matching refines flat tables, after every history of adds and drops. */
  lemma GrpcMatchRefines(ops: seq<PolicyOp>, name: string)
    requires AllGrpc(ops)
    ensures MatchTrees(TreesAfter(ops), [name]) == FlatGrpcMatch(FlatAfter(ops), name)
  {
    GrpcHistory(ops);
    GrpcMatchHolds(TreesAfter(ops), FlatAfter(ops), name);
  }

  /** A history without anything filed under `k`. */
  function Without(ops: seq<PolicyOp>, k: RouteKey): (r: seq<PolicyOp>)
    requires forall op :: op in ops ==> Sourced(op.policy)
    ensures forall op :: op in r ==> op in ops && KeyOf(op.policy) != k
  {
    if ops == [] then []
    else Without(ops[..|ops| - 1], k) + if KeyOf(ops[|ops| - 1].policy) == k then [] else [ops[|ops| - 1]]
  }

  lemma StepWithout(f: Flat, g: Flat, op: PolicyOp, k: RouteKey)
    requires Sourced(op.policy) && g.table == f.table - {k}
    ensures FlatStep(f, op).table - {k} == if KeyOf(op.policy) == k then g.table else FlatStep(g, op).table
  {
  }

  lemma {:induction false} TableWithout(ops: seq<PolicyOp>, k: RouteKey)
    requires forall op :: op in ops ==> Sourced(op.policy)
    ensures FlatAfter(Without(ops, k)).table == FlatAfter(ops).table - {k}
  {
    if ops != [] {
      var init, last := ops[..|ops| - 1], ops[|ops| - 1];
      TableWithout(init, k);
      var rest := Without(init, k);
      StepWithout(FlatAfter(init), FlatAfter(rest), last, k);
      hide FlatStep, KeyOf;
      if KeyOf(last.policy) == k {
        assert Without(ops, k) == rest;
      } else {
        assert Without(ops, k) == rest + [last];
        assert (rest + [last])[..|rest|] == rest;
      }
    }
  }

  /** Dropping a gRPC key gives, for every name, the answer of a history in which the key was never used. */
  lemma GrpcDropForgets(ops: seq<PolicyOp>, p: GatewayPolicy, name: string)
    requires AllGrpc(ops) && p.source.Grpc?
    ensures MatchTrees(TreesAfter(ops + [Drop(p)]), [name]) == MatchTrees(TreesAfter(Without(ops, KeyOf(p))), [name])
  {
    var dropped, without := ops + [Drop(p)], Without(ops, KeyOf(p));
    assert dropped[..|ops|] == ops;
    TableWithout(ops, KeyOf(p));
    GrpcMatchRefines(dropped, name);
    GrpcMatchRefines(without, name);
    assert FlatAfter(dropped).table == FlatAfter(without).table;
    assert PrefixNames(FlatAfter(dropped)) == PrefixNames(FlatAfter(without));
  }

  // ----- what an HTTP drop leaves -----

  /** The flat tables after dropping a policy, and those of the history in which its key was never used. */
  function Dropping(ops: seq<PolicyOp>, p: GatewayPolicy): Flat
    requires AllSourced(ops) && Sourced(p)
  {
    FlatDropped(FlatAfter(ops), p)
  }

  function Forgetting(ops: seq<PolicyOp>, p: GatewayPolicy): Flat
    requires AllSourced(ops) && Sourced(p)
  {
    FlatAfter(Without(ops, KeyOf(p)))
  }

  predicate AllSourced(ops: seq<PolicyOp>) {
    forall op :: op in ops ==> Sourced(op.policy)
  }

  /** Leaving out a key leaves out no path but its own. */
  lemma {:induction false} PathsWithout(ops: seq<PolicyOp>, k: RouteKey)
    requires AllSourced(ops)
    ensures FlatAfter(Without(ops, k)).paths <= FlatAfter(ops).paths
    ensures forall path :: path in FlatAfter(ops).paths && path !in FlatAfter(Without(ops, k)).paths ==>
              k.HttpKey? && !k.exact && k.path == path
  {
    if ops != [] {
      var init, last := ops[..|ops| - 1], ops[|ops| - 1];
      PathsWithout(init, k);
      var rest := Without(init, k);
      PathsStep(FlatAfter(init), FlatAfter(rest), last, k);
      hide FlatStep, KeyOf;
      if KeyOf(last.policy) == k {
        assert Without(ops, k) == rest;
      } else {
        assert Without(ops, k) == rest + [last];
        assert (rest + [last])[..|rest|] == rest;
      }
    }
  }

  lemma PathsStep(f: Flat, g: Flat, op: PolicyOp, k: RouteKey)
    requires Sourced(op.policy) && g.paths <= f.paths
    requires forall path :: path in f.paths && path !in g.paths ==> k.HttpKey? && !k.exact && k.path == path
    ensures
      var f', g' := FlatStep(f, op), if KeyOf(op.policy) == k then g else FlatStep(g, op);
      && g'.paths <= f'.paths
      && forall path :: path in f'.paths && path !in g'.paths ==> k.HttpKey? && !k.exact && k.path == path
  {
  }

  /** A prefix entry's path is among the paths inserted. */
  lemma {:induction false} PathsOfTable(ops: seq<PolicyOp>)
    requires AllSourced(ops)
    ensures forall path, v :: HttpKey(false, path, v) in FlatAfter(ops).table ==> path in FlatAfter(ops).paths
  {
    if ops != [] {
      PathsOfTable(ops[..|ops| - 1]);
    }
  }

  /** The drop leaves a path behind that the history without the key never had. */
  predicate LeavesPath(ops: seq<PolicyOp>, p: GatewayPolicy)
    requires AllSourced(ops) && p.source.Http?
  {
    && !p.source.exactPathMatch
    && p.source.path in FlatAfter(ops).paths && p.source.path !in Forgetting(ops, p).paths
  }

  lemma DroppedPaths(ops: seq<PolicyOp>, p: GatewayPolicy)
    requires AllSourced(ops) && p.source.Http?
    ensures Dropping(ops, p).table == Forgetting(ops, p).table
    ensures Dropping(ops, p).paths ==
            Forgetting(ops, p).paths + if LeavesPath(ops, p) then {p.source.path} else {}
  {
    TableWithout(ops, KeyOf(p));
    PathsWithout(ops, KeyOf(p));
  }

  lemma SamePrefixes(a: string, b: string, whole: string)
    requires a <= whole && b <= whole && |a| == |b|
    ensures a == b
  {
    assert a == whole[..|a|] && b == whole[..|b|];
  }

  /** The longest stored prefix without one of the keys: the same, unless it was that key; then it is the longest
      stored prefix of that key. */
  lemma LongestWithout(keys: set<string>, key: string, request: string)
    requires key !in keys
    ensures LongestPrefix(keys, request) ==
            if LongestPrefix(keys + {key}, request) == Some(key) then LongestPrefix(keys, key)
            else LongestPrefix(keys + {key}, request)
  {
    var more, fewer := LongestPrefix(keys + {key}, request), LongestPrefix(keys, request);
    if more == Some(key) {
      var below := LongestPrefix(keys, key);
      if fewer.Some? {
        assert |fewer.value| <= |key|;
        assert fewer.value <= key by {
          assert fewer.value == request[..|fewer.value|] && key == request[..|key|];
        }
      }
      if below.Some? {
        assert below.value <= request;
      }
      if fewer.Some? && below.Some? {
        SamePrefixes(fewer.value, below.value, request);
      }
    } else if more.Some? {
      assert more.value in keys;
      SamePrefixes(more.value, fewer.value, request);
    }
  }

  /** The longest path below the one that the drop leaves behind: the one it may hide. */
  function PathBelow(ops: seq<PolicyOp>, p: GatewayPolicy): Option<string>
    requires AllSourced(ops) && p.source.Http?
  {
    LongestPrefix(Forgetting(ops, p).paths, p.source.path)
  }

  /** The answer of the path below for a verb. */
  function AnswerBelow(ops: seq<PolicyOp>, p: GatewayPolicy, verb: string): Option<GatewayPolicy>
    requires AllSourced(ops) && p.source.Http?
  {
    match PathBelow(ops, p)
    case None => None
    case Some(below) => HttpLookup(Forgetting(ops, p), false, below, verb)
  }

  /** The request ends at the path left behind, nothing exact answers it, and the path below would. */
  predicate HiddenFrom(ops: seq<PolicyOp>, p: GatewayPolicy, path: string, verb: string)
    requires AllSourced(ops) && p.source.Http?
  {
    && LeavesPath(ops, p)
    && LongestPrefix(FlatAfter(ops).paths, path) == Some(p.source.path)
    && HttpLookup(Forgetting(ops, p), true, path, verb).None?
    && AnswerBelow(ops, p, verb).Some?
  }

  lemma FlatForgetsAt(ops: seq<PolicyOp>, p: GatewayPolicy, path: string, verb: string)
    requires AllHttp(ops) && p.source.Http?
    ensures FlatHttpMatch(Dropping(ops, p), path, verb) == FlatHttpMatch(Forgetting(ops, p), path, verb)
       <==> !HiddenFrom(ops, p, path, verb)
  {
    var d, w := Dropping(ops, p), Forgetting(ops, p);
    DroppedPaths(ops, p);
    PathsOfTable(Without(ops, KeyOf(p)));
    hide LongestPrefix, FlatAfter, Without;
    if LeavesPath(ops, p) {
      LongestWithout(w.paths, p.source.path, path);
    } else {
      assert d == w;
    }
  }

  /** An HTTP drop gives a request the answer of the history in which the key was never used, if and only if the
      path it leaves behind does not hide that answer. */
  lemma HttpDropForgetsAt(ops: seq<PolicyOp>, p: GatewayPolicy, path: string, verb: string)
    requires AllHttp(ops) && p.source.Http?
    ensures MatchTrees(TreesAfter(ops + [Drop(p)]), [path, verb]) ==
            MatchTrees(TreesAfter(Without(ops, KeyOf(p))), [path, verb])
       <==> !HiddenFrom(ops, p, path, verb)
  {
    hide MatchTrees, TreesAfter, FlatHttpMatch, HiddenFrom, Without;
    FlatAfterMore(ops, Drop(p));
    HttpMatchRefines(ops + [Drop(p)], path, verb);
    HttpMatchRefines(Without(ops, KeyOf(p)), path, verb);
    FlatForgetsAt(ops, p, path, verb);
  }

  /** Somewhere below the path left behind, there is something to hide. */
  ghost predicate Masks(ops: seq<PolicyOp>, p: GatewayPolicy)
    requires AllSourced(ops) && p.source.Http?
  {
    && LeavesPath(ops, p) && PathBelow(ops, p).Some?
    && exists v :: HttpKey(false, PathBelow(ops, p).value, v) in Forgetting(ops, p).table
  }

  /** Every request that ends at the path left behind has an exact answer, wherever the path below has one.  For
      that, exact entries or longer paths must go on from the path by every character there is. */
  ghost predicate Shielded(ops: seq<PolicyOp>, p: GatewayPolicy)
    requires AllSourced(ops) && p.source.Http?
  {
    forall path, verb ::
      LongestPrefix(FlatAfter(ops).paths, path) == Some(p.source.path) && AnswerBelow(ops, p, verb).Some? ==>
        HttpLookup(Forgetting(ops, p), true, path, verb).Some?
  }

  /** All answers after the drop are those of the history in which the key was never used. */
  ghost predicate DropForgets(ops: seq<PolicyOp>, p: GatewayPolicy)
    requires AllHttp(ops) && p.source.Http?
  {
    forall path, verb ::
      MatchTrees(TreesAfter(ops + [Drop(p)]), [path, verb]) ==
          MatchTrees(TreesAfter(Without(ops, KeyOf(p))), [path, verb])
  }

  ghost predicate NothingHidden(ops: seq<PolicyOp>, p: GatewayPolicy)
    requires AllSourced(ops) && p.source.Http?
  {
    forall path, verb :: !HiddenFrom(ops, p, path, verb)
  }

  lemma ForgetsUnlessHidden(ops: seq<PolicyOp>, p: GatewayPolicy)
    requires AllHttp(ops) && p.source.Http?
    ensures DropForgets(ops, p) <==> NothingHidden(ops, p)
  {
    hide MatchTrees, TreesAfter, HiddenFrom, Without;
    forall path, verb
      ensures MatchTrees(TreesAfter(ops + [Drop(p)]), [path, verb]) ==
              MatchTrees(TreesAfter(Without(ops, KeyOf(p))), [path, verb])
         <==> !HiddenFrom(ops, p, path, verb)
    {
      HttpDropForgetsAt(ops, p, path, verb);
    }
  }

  lemma HiddenIsMasked(ops: seq<PolicyOp>, p: GatewayPolicy, path: string, verb: string)
    requires AllSourced(ops) && p.source.Http? && HiddenFrom(ops, p, path, verb)
    ensures Masks(ops, p)
  {
    LookupHasEntry(Forgetting(ops, p), PathBelow(ops, p).value, verb);
  }

  /** An HTTP drop forgets its key, for all requests, if and only if it leaves no path behind that masks an entry,
      or exact entries shield that one off altogether. */
  lemma HttpDropForgets(ops: seq<PolicyOp>, p: GatewayPolicy)
    requires AllHttp(ops) && p.source.Http?
    ensures DropForgets(ops, p) <==> !Masks(ops, p) || Shielded(ops, p)
  {
    ForgetsUnlessHidden(ops, p);
    hide DropForgets, Masks, Shielded, FlatAfter, Forgetting, HttpLookup, AnswerBelow, LongestPrefix, LeavesPath,
        FlatAdded, FlatDropped;
    forall path, verb | HiddenFrom(ops, p, path, verb)
      ensures Masks(ops, p)
    {
      HiddenIsMasked(ops, p, path, verb);
    }
    if Masks(ops, p) {
      ShieldedHidesNothing(ops, p);
    }
  }

  lemma ShieldedHidesNothing(ops: seq<PolicyOp>, p: GatewayPolicy)
    requires AllSourced(ops) && p.source.Http? && Masks(ops, p)
    ensures Shielded(ops, p) <==> NothingHidden(ops, p)
  {
    assert LeavesPath(ops, p);
    hide FlatAfter, Forgetting, HttpLookup, AnswerBelow, LongestPrefix, LeavesPath;
    if Shielded(ops, p) {
      forall path, verb
        ensures !HiddenFrom(ops, p, path, verb)
      {
      }
    }
    if NothingHidden(ops, p) {
      forall path, verb | LongestPrefix(FlatAfter(ops).paths, path) == Some(p.source.path) &&
          AnswerBelow(ops, p, verb).Some?
        ensures HttpLookup(Forgetting(ops, p), true, path, verb).Some?
      {
        assert !HiddenFrom(ops, p, path, verb);
      }
    }
  }

  lemma LookupHasEntry(f: Flat, path: string, verb: string)
    requires HttpLookup(f, false, path, verb).Some?
    ensures exists v :: HttpKey(false, path, v) in f.table
  {
    assert HttpKey(false, path, Named(verb)) in f.table || HttpKey(false, path, AnyMethod) in f.table;
  }

  /** Some verb gets an entry of a path. */
  lemma EntryAnswers(f: Flat, path: string, v: Verb) returns (verb: string)
    requires HttpKey(false, path, v) in f.table
    ensures HttpLookup(f, false, path, verb).Some?
  {
    verb := if v.Named? then v.name else HttpMethodName(0);
  }

  /** No stored path and no exact entry goes on from `path` by the character `c`. */
  ghost predicate FreeToGoOn(f: Flat, path: string, c: char) {
    && (forall other :: other in f.paths ==> !(path + [c] <= other))
    && (forall other, v :: HttpKey(true, other, v) in f.table ==> !(path + [c] <= other))
  }

  /** Unless every character goes on from the path, the condition is plain: the drop forgets its key if and only if
      it leaves no path behind with an entry at the longest path below it. */
  lemma HttpDropForgetsPlainly(ops: seq<PolicyOp>, p: GatewayPolicy, c: char)
    requires AllHttp(ops) && p.source.Http? && FreeToGoOn(FlatAfter(ops), p.source.path, c)
    ensures DropForgets(ops, p) <==> !Masks(ops, p)
  {
    HttpDropForgets(ops, p);
    if Masks(ops, p) {
      NotShielded(ops, p, c);
    }
  }

  lemma NotShielded(ops: seq<PolicyOp>, p: GatewayPolicy, c: char)
    requires AllHttp(ops) && p.source.Http? && FreeToGoOn(FlatAfter(ops), p.source.path, c) && Masks(ops, p)
    ensures !Shielded(ops, p)
  {
    var w, path, below := Forgetting(ops, p), p.source.path + [c], PathBelow(ops, p).value;
    var v :| HttpKey(false, below, v) in w.table;
    var verb := EntryAnswers(w, below, v);
    DroppedPaths(ops, p);
    EndsAt(FlatAfter(ops).paths, p.source.path, c);
    assert HttpLookup(w, true, path, verb).None?;
  }

  lemma EndsAt(keys: set<string>, key: string, c: char)
    requires key in keys && forall other :: other in keys ==> !(key + [c] <= other)
    ensures LongestPrefix(keys, key + [c]) == Some(key)
  {
    var longest := LongestPrefix(keys, key + [c]).value;
    assert key <= key + [c] && |key| <= |longest|;
    if |longest| == |key| {
      SamePrefixes(longest, key, key + [c]);
    } else {
      SamePrefixes(longest, key + [c], key + [c]);
    }
  }

  /** If every character does go on, the plain condition can fail: exact entries for just the path left behind then
      shield off all below. */
  lemma EveryCharacterShields(ops: seq<PolicyOp>, p: GatewayPolicy)
    requires AllSourced(ops) && p.source.Http?
    requires forall c: char :: p.source.path + [c] in FlatAfter(ops).paths
    requires forall verb :: AnswerBelow(ops, p, verb).Some? ==>
             HttpLookup(Forgetting(ops, p), true, p.source.path, verb).Some?
    ensures Shielded(ops, p)
  {
    hide AnswerBelow, FlatAfter, Forgetting, HttpLookup;
    forall path | LongestPrefix(FlatAfter(ops).paths, path) == Some(p.source.path)
      ensures path == p.source.path
    {
      OneFurther(p.source.path, path);
    }
  }

  lemma OneFurther(a: string, b: string)
    ensures a <= b && a != b ==> |a| < |b| && a + [b[|a|]] <= b
  {
  }

  /** A prefix path with no entry left answers for all requests that end there and have no exact answer, with
      nothing, whatever shorter paths hold. */
  lemma HttpDropStillHides(ops: seq<PolicyOp>, path: string, emptied: string, verb: string)
    requires AllHttp(ops)
    requires HttpLookup(FlatAfter(ops), true, path, verb).None?
    requires LongestPrefix(FlatAfter(ops).paths, path) == Some(emptied)
    requires forall v :: HttpKey(false, emptied, v) !in FlatAfter(ops).table
    ensures MatchTrees(TreesAfter(ops), [path, verb]) == None
  {
    HttpMatchRefines(ops, path, verb);
  }

  /** A history in which it does: "/" is served, "/a" is added and dropped, and "/a" is served no more. */
  lemma HttpDropHides(root: seq<string>, deep: seq<string>)
    ensures
      var r, p := GatewayPolicy(Http(0, "/", false), root), GatewayPolicy(Http(0, "/a", false), deep);
      && MatchTrees(TreesAfter([Add(r), Add(p), Drop(p)]), ["/a", "HTTP_METHOD_GET"]) == None
      && MatchTrees(TreesAfter([Add(r)]), ["/a", "HTTP_METHOD_GET"]) == Some(r)
      && Without([Add(r), Add(p)], KeyOf(p)) == [Add(r)]
  {
    var r, p := GatewayPolicy(Http(0, "/", false), root), GatewayPolicy(Http(0, "/a", false), deep);
    HidingHistory(r, p);
    HidingAnswers(r);
    hide MatchTrees, TreesAfter, FlatAfter, Without, LongestPrefix, FlatHttpMatch;
    HttpMatchRefines([Add(r), Add(p), Drop(p)], "/a", "HTTP_METHOD_GET");
    HttpMatchRefines([Add(r)], "/a", "HTTP_METHOD_GET");
  }

  lemma HidingAnswers(r: GatewayPolicy)
    requires r.source == Http(0, "/", false)
    ensures FlatHttpMatch(Flat(map[KeyOf(r) := r], {"/", "/a"}), "/a", "HTTP_METHOD_GET") == None
    ensures FlatHttpMatch(Flat(map[KeyOf(r) := r], {"/"}), "/a", "HTTP_METHOD_GET") == Some(r)
  {
    SlashA();
    hide LongestPrefix;
    assert HttpMethodName(1) == "HTTP_METHOD_GET";
  }

  lemma HidingHistory(r: GatewayPolicy, p: GatewayPolicy)
    requires r.source == Http(0, "/", false) && p.source == Http(0, "/a", false)
    ensures FlatAfter([Add(r)]) == Flat(map[KeyOf(r) := r], {"/"})
    ensures FlatAfter([Add(r), Add(p), Drop(p)]) == Flat(map[KeyOf(r) := r], {"/", "/a"})
    ensures Without([Add(r), Add(p)], KeyOf(p)) == [Add(r)]
  {
    HidingSteps(r, p);
    var t0: seq<PolicyOp> := [];
    var t1 := t0 + [Add(r)];
    var t2 := t1 + [Add(p)];
    assert FlatAfter(t0) == NoFlat && Without(t0, KeyOf(p)) == [];
    hide FlatAfter, Without, FlatStep, KeyOf;
    FlatAfterMore(t0, Add(r));
    FlatAfterMore(t1, Add(p));
    FlatAfterMore(t2, Drop(p));
    WithoutMore(t0, Add(r), KeyOf(p));
    WithoutMore(t1, Add(p), KeyOf(p));
    assert t1 == [Add(r)] && t2 == [Add(r), Add(p)] && t2 + [Drop(p)] == [Add(r), Add(p), Drop(p)];
  }

  lemma HidingSteps(r: GatewayPolicy, p: GatewayPolicy)
    requires r.source == Http(0, "/", false) && p.source == Http(0, "/a", false)
    ensures KeyOf(r) != KeyOf(p)
    ensures
      var f1 := FlatStep(NoFlat, Add(r));
      && f1 == Flat(map[KeyOf(r) := r], {"/"})
      && FlatStep(FlatStep(f1, Add(p)), Drop(p)) == Flat(map[KeyOf(r) := r], {"/", "/a"})
  {
    assert KeyOf(r) != KeyOf(p);
    assert {"/"} + {"/a"} == {"/", "/a"};
  }

  lemma WithoutMore(ops: seq<PolicyOp>, op: PolicyOp, k: RouteKey)
    requires AllSourced(ops + [op])
    ensures AllSourced(ops) && Sourced(op.policy)
    ensures Without(ops + [op], k) == if KeyOf(op.policy) == k then Without(ops, k) else Without(ops, k) + [op]
  {
    assert op in ops + [op];
    assert (ops + [op])[..|ops|] == ops;
  }

  lemma SlashA()
    ensures LongestPrefix({"/", "/a"}, "/a") == Some("/a") && LongestPrefix({"/"}, "/a") == Some("/")
  {
    assert "/a" <= "/a" && "/" <= "/a";
    assert "/a" in {"/", "/a"} && "/" in {"/"};
  }

  lemma FlatAfterMore(ops: seq<PolicyOp>, op: PolicyOp)
    requires AllSourced(ops + [op])
    ensures AllSourced(ops) && Sourced(op.policy) && FlatAfter(ops + [op]) == FlatStep(FlatAfter(ops), op)
  {
    assert op in ops + [op];
    assert (ops + [op])[..|ops|] == ops;
  }
}
