/**
 The gateway's policy matchers: nested radix trees keyed by path or method name, and the flat
 tables they stand for.  A radix tree is taken as a finite map with exact lookup and a lookup of
 the longest stored key that is a prefix of the given one.
 */
module Matcher {
  import opened Wrappers

  datatype PolicySource =
    | NoSource
    | Grpc(methodName: string, exactMethodNameMatch: bool)
    | Http(verb: int, path: string, exactPathMatch: bool)

  datatype GatewayPolicy = GatewayPolicy(source: PolicySource, handlers: seq<string>)

  /** The names of the HTTP methods by number; other numbers have the empty name. */
  function HttpMethodName(n: int): string {
    match n
    case 0 => "HTTP_METHOD_UNDEFINED"
    case 1 => "HTTP_METHOD_GET"
    case 2 => "HTTP_METHOD_HEAD"
    case 3 => "HTTP_METHOD_POST"
    case 4 => "HTTP_METHOD_PUT"
    case 5 => "HTTP_METHOD_DELETE"
    case 6 => "HTTP_METHOD_CONNECT"
    case 7 => "HTTP_METHOD_OPTIONS"
    case 8 => "HTTP_METHOD_TRACE"
    case 9 => "HTTP_METHOD_PATCH"
    case _ => ""
  }

  predicate IsHttpMethodName(key: string) {
    exists n :: 0 <= n <= 9 && HttpMethodName(n) == key
  }

  // ----- radix trees -----

  /** The longest of the first `n + 1` prefixes of `key` that is stored. */
  function LongestUpTo(keys: set<string>, key: string, n: nat): (r: Option<string>)
    requires n <= |key|
    ensures r.Some? ==> r.value in keys && r.value <= key && |r.value| <= n
    ensures forall k :: k in keys && k <= key && |k| <= n ==> r.Some? && |k| <= |r.value|
  {
    if key[..n] in keys then Some(key[..n])
    else if n == 0 then None
    else
      assert forall k :: k in keys && k <= key && |k| <= n ==> k == key[..|k|] && |k| <= n - 1;
      LongestUpTo(keys, key, n - 1)
  }

  /** The longest stored key that is a prefix of `key`. */
  function LongestPrefix(keys: set<string>, key: string): (r: Option<string>)
    ensures r.Some? ==> r.value in keys && r.value <= key
    ensures forall k :: k in keys && k <= key ==> r.Some? && |k| <= |r.value|
  {
    LongestUpTo(keys, key, |key|)
  }

  // ----- matcher trees as values -----

  /** What insertion and removal dispatch on. */
  datatype Source = GrpcSource(name: string) | HttpSource(verb: int, path: string) | MethodSource(number: int)

  datatype Node = Node(policy: Option<GatewayPolicy>, exact: bool, tree: map<string, Node>)

  function FreshNode(exact: bool): Node {
    Node(None, exact, map[])
  }

  function LeafNode(policy: GatewayPolicy): Node {
    Node(Some(policy), false, map[])
  }

  function Inserted(n: Node, policy: GatewayPolicy, source: Source): Node
    decreases source.HttpSource?
  {
    match source
    case GrpcSource(name) => n.(tree := n.tree[name := LeafNode(policy)])
    case HttpSource(verb, path) =>
      var nested := if path in n.tree then n.tree[path] else FreshNode(true);
      n.(tree := n.tree[path := Inserted(nested, policy, MethodSource(verb))])
    case MethodSource(number) =>
      if number == 0 then n.(policy := Some(policy))
      else n.(tree := n.tree[HttpMethodName(number) := LeafNode(policy)])
  }

  function Removed(n: Node, source: Source): Node
    decreases source.HttpSource?
  {
    match source
    case GrpcSource(name) => n.(tree := n.tree - {name})
    case HttpSource(verb, path) =>
      if path in n.tree then n.(tree := n.tree[path := Removed(n.tree[path], MethodSource(verb))]) else n
    case MethodSource(number) =>
      if number == 0 then n.(policy := None) else n.(tree := n.tree - {HttpMethodName(number)})
  }

  function MatchNode(n: Node, keys: seq<string>): Option<GatewayPolicy>
    requires keys != []
    decreases |keys|
  {
    var key := keys[0];
    var found := if n.exact then (if key in n.tree then Some(key) else None) else LongestPrefix(n.tree.Keys, key);
    match found
    case None => if IsHttpMethodName(key) then n.policy else None
    case Some(k) => if |keys| == 1 then n.tree[k].policy else MatchNode(n.tree[k], keys[1..])
  }

  // ----- matcher trees as objects -----

  class PolicyMatcher {
    var policy: Option<GatewayPolicy>
    const exact: bool
    var tree: map<string, PolicyMatcher>
    ghost var view: Node              // the matcher as a value
    ghost var footprint: set<object>  // the objects it is made of

    ghost predicate Valid()
      reads this, footprint
      ensures Valid() ==> this in footprint && view.policy == policy && view.exact == exact
      ensures Valid() ==> view.tree.Keys == tree.Keys
      decreases footprint
    {
      && this in footprint
      && view.policy == policy && view.exact == exact && view.tree.Keys == tree.Keys
      && (forall k :: k in tree ==>
            && tree[k] in footprint && tree[k].footprint <= footprint && this !in tree[k].footprint
            && tree[k].Valid() && tree[k].view == view.tree[k])
      && (forall j, k :: j in tree && k in tree && j != k ==> tree[j].footprint !! tree[k].footprint)
    }

    constructor (exact: bool)
      ensures Valid() && fresh(footprint) && view == FreshNode(exact)
    {
      this.policy, this.exact, this.tree := None, exact, map[];
      this.view, this.footprint := FreshNode(exact), {this};
    }

    constructor Leaf(policy: GatewayPolicy)
      ensures Valid() && fresh(footprint) && view == LeafNode(policy)
    {
      this.policy, this.exact, this.tree := Some(policy), false, map[];
      this.view, this.footprint := LeafNode(policy), {this};
    }

    /** A child whose objects are all unchanged is as valid as it was. */
    twostate lemma ChildKept(k: string)
      requires old(Valid()) && k in old(tree)
      requires forall o: object :: o in old(tree[k].footprint) ==> unchanged(o)
      ensures
        var child := old(tree)[k];
        child.Valid() && child.footprint == old(tree[k].footprint) && child.view == old(tree[k].view)
    {
    }

    /** What is asked of a change confined to the child at one key. */
    twostate predicate OnlyChildPut(key: string)
      requires old(Valid()) && key in tree
      reads this, tree[key], footprint, tree[key].footprint
    {
      && tree == old(tree)[key := tree[key]] && policy == old(policy)
      && footprint == old(footprint) + tree[key].footprint
      && tree[key].Valid() && this !in tree[key].footprint
      && (forall k :: k in old(tree) && k != key ==> old(tree[k].footprint) !! tree[key].footprint)
      && (forall o: object :: o in old(footprint) && o !in tree[key].footprint && o != this ==> unchanged(o))
    }

    /** The other children are what they were. */
    twostate lemma OthersKept(key: string)
      requires old(Valid()) && key in tree && OnlyChildPut(key)
      ensures forall k :: k in tree && k != key ==>
        && k in old(tree) && tree[k] == old(tree[k])
        && tree[k].Valid() && tree[k].footprint == old(tree[k].footprint) && tree[k].view == old(view.tree[k])
    {
      forall k | k in tree && k != key
        ensures k in old(tree) && tree[k] == old(tree[k])
        ensures tree[k].Valid() && tree[k].footprint == old(tree[k].footprint) && tree[k].view == old(view.tree[k])
      {
        assert forall o: object :: o in old(tree[k].footprint) ==> o != this && o !in tree[key].footprint;
        ChildKept(k);
      }
    }

    /** All children still have footprints of their own, within that of the tree. */
    twostate lemma StillApart(key: string)
      requires old(Valid()) && key in tree && OnlyChildPut(key)
      ensures forall k :: k in tree ==>
                tree[k] in footprint && tree[k].footprint <= footprint && this !in tree[k].footprint
      ensures forall j, k :: j in tree && k in tree && j != k ==> tree[j].footprint !! tree[k].footprint
    {
      OthersKept(key);
    }

    /** Validity from its parts. */
    lemma Assembled()
      requires this in footprint && view.policy == policy && view.exact == exact && view.tree.Keys == tree.Keys
      requires forall k :: k in tree ==>
                 tree[k] in footprint && tree[k].footprint <= footprint && this !in tree[k].footprint
      requires forall k :: k in tree ==> tree[k].Valid() && tree[k].view == view.tree[k]
      requires forall j, k :: j in tree && k in tree && j != k ==> tree[j].footprint !! tree[k].footprint
      ensures Valid()
    {
    }

    /** Validity survives a change confined to the child at one key. */
    twostate lemma ChildPut(key: string)
      requires old(Valid()) && key in tree && OnlyChildPut(key)
      requires view == old(view).(tree := old(view).tree[key := tree[key].view])
      ensures Valid()
    {
      hide Valid;
      StillApart(key);
      OthersKept(key);
      SelfIn(key);
      hide OnlyChildPut;
      Assembled();
    }

    twostate lemma SelfIn(key: string)
      requires old(Valid()) && key in tree && OnlyChildPut(key)
      ensures this in footprint && tree[key] in footprint
      ensures tree[key].footprint <= footprint && this !in tree[key].footprint
      ensures old(view).policy == policy && old(view).exact == exact && old(view).tree.Keys == old(tree).Keys
      ensures tree[key].Valid() && tree.Keys == old(tree).Keys + {key}
    {
    }

    /** Puts a new matcher under a key, in place of whatever was there. */
    method SetChild(key: string, child: PolicyMatcher)
      requires Valid() && child.Valid() && child.footprint !! footprint
      modifies this
      ensures Valid() && footprint == old(footprint) + child.footprint
      ensures tree == old(tree)[key := child]
      ensures view == old(view).(tree := old(view).tree[key := old(child.view)])
    {
      tree := tree[key := child];
      footprint := footprint + child.footprint;
      view := view.(tree := view.tree[key := child.view]);
      assert child.Valid();
      ChildPut(key);
    }

    method DeleteChild(key: string)
      requires Valid()
      modifies this
      ensures Valid() && footprint == old(footprint)
      ensures view == old(view).(tree := old(view).tree - {key})
    {
      tree := tree - {key};
      view := view.(tree := view.tree - {key});
    }

    /** The matcher under a path, put there first if there is none. */
    method Nested(path: string) returns (nested: PolicyMatcher)
      requires Valid()
      modifies this
      ensures Valid() && fresh(footprint - old(footprint))
      ensures path in tree && nested == tree[path]
      ensures
        var n := old(view);
        view == n.(tree := n.tree[path := if path in n.tree then n.tree[path] else FreshNode(true)])
    {
      if path in tree {
        nested := tree[path];
        assert view.tree == view.tree[path := view.tree[path]];
      } else {
        nested := new PolicyMatcher(true);
        SetChild(path, nested);
      }
    }

    method InsertMethod(policy: GatewayPolicy, number: int)
      requires Valid()
      modifies this
      ensures Valid() && fresh(footprint - old(footprint))
      ensures view == Inserted(old(view), policy, MethodSource(number))
    {
      if number == 0 {
        this.policy := Some(policy);
        view := view.(policy := Some(policy));
      } else {
        var leaf := new PolicyMatcher.Leaf(policy);
        SetChild(HttpMethodName(number), leaf);
      }
    }

    /** Inserts a policy in the matcher that is already there under a path. */
    method InsertUnder(policy: GatewayPolicy, verb: int, path: string)
      requires Valid() && path in tree
      modifies footprint
      ensures Valid() && fresh(footprint - old(footprint))
      ensures
        var n := old(view);
        view == n.(tree := n.tree[path := Inserted(n.tree[path], policy, MethodSource(verb))])
    {
      var nested := tree[path];
      nested.InsertMethod(policy, verb);
      footprint := footprint + nested.footprint;
      view := view.(tree := view.tree[path := nested.view]);
      ChildPut(path);
    }

    method InsertHttp(policy: GatewayPolicy, verb: int, path: string)
      requires Valid()
      modifies footprint
      ensures Valid() && fresh(footprint - old(footprint))
      ensures view == Inserted(old(view), policy, HttpSource(verb, path))
    {
      hide Valid;
      var nested := Nested(path);
      InsertUnder(policy, verb, path);
    }

    method Insert(policy: GatewayPolicy, source: Source)
      requires Valid()
      modifies footprint
      ensures Valid() && fresh(footprint - old(footprint))
      ensures view == Inserted(old(view), policy, source)
    {
      if source.GrpcSource? {
        var leaf := new PolicyMatcher.Leaf(policy);
        SetChild(source.name, leaf);
      } else if source.HttpSource? {
        InsertHttp(policy, source.verb, source.path);
      } else {
        InsertMethod(policy, source.number);
      }
    }

    method RemoveMethod(number: int)
      requires Valid()
      modifies this
      ensures Valid() && footprint == old(footprint)
      ensures view == Removed(old(view), MethodSource(number))
    {
      if number == 0 {
        policy := None;
        view := view.(policy := None);
      } else {
        DeleteChild(HttpMethodName(number));
      }
    }

    method RemoveHttp(verb: int, path: string)
      requires Valid()
      modifies footprint
      ensures Valid() && footprint == old(footprint)
      ensures view == Removed(old(view), HttpSource(verb, path))
    {
      if path in tree {
        var nested := tree[path];
        nested.RemoveMethod(verb);
        view := view.(tree := view.tree[path := nested.view]);
        ChildPut(path);
      }
    }

    method Remove(source: Source)
      requires Valid()
      modifies footprint
      ensures Valid() && footprint == old(footprint)
      ensures view == Removed(old(view), source)
    {
      if source.GrpcSource? {
        if source.name in tree {
          DeleteChild(source.name);
        } else {
          assert view.tree - {source.name} == view.tree;
        }
      } else if source.HttpSource? {
        RemoveHttp(source.verb, source.path);
      } else {
        RemoveMethod(source.number);
      }
    }

    function Match(keys: seq<string>): (r: Option<GatewayPolicy>)
      requires Valid() && keys != []
      reads this, footprint
      ensures r == MatchNode(view, keys)
      decreases |keys|
    {
      var key := keys[0];
      var found := if exact then (if key in tree then Some(key) else None) else LongestPrefix(tree.Keys, key);
      match found
      case None => if IsHttpMethodName(key) then policy else None
      case Some(k) => if |keys| == 1 then tree[k].policy else tree[k].Match(keys[1..])
    }
  }
}
