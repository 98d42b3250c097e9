/** Turning resolved dependency strings into the edges of an SBOM graph, as the lockfile loaders do. */
module Connect {
  import opened Graph
  import opened Sbom

  /** The references of lockfile entries. */
  ghost function EntryRefs<E>(es: seq<E>, ref: E -> string): set<string> {
    set e | e in es :: ref(e)
  }

  lemma EntryRefsStep<E>(es: seq<E>, i: nat, ref: E -> string)
    requires i < |es|
    ensures EntryRefs(es[..i + 1], ref) == EntryRefs(es[..i], ref) + {ref(es[i])}
  {
    assert es[..i + 1] == es[..i] + [es[i]];
    forall r | r in EntryRefs(es[..i], ref) + {ref(es[i])} ensures r in EntryRefs(es[..i + 1], ref) {
      if r == ref(es[i]) {
        assert es[i] in es[..i + 1];
      } else {
        var e :| e in es[..i] && ref(e) == r;
        assert e in es[..i + 1];
      }
    }
  }

  /** Components made from the entries one by one have the references of the entries. */
  lemma DescribedRefs<E>(components: seq<Component>, es: seq<E>, ref: E -> string)
    requires |components| == |es| && forall i :: 0 <= i < |es| ==> components[i].reference == ref(es[i])
    ensures Refs(components) == EntryRefs(es, ref)
  {
    forall r | r in Refs(components) ensures r in EntryRefs(es, ref) {
      var i :| 0 <= i < |components| && components[i].reference == r;
      assert es[i] in es && ref(es[i]) == r;
    }
    forall r | r in EntryRefs(es, ref) ensures r in Refs(components) {
      var i :| 0 <= i < |es| && ref(es[i]) == r;
      assert components[i] in components && components[i].reference == r;
    }
  }

  type Resolver = string -> seq<string>

  ghost predicate Wants(resolve: Resolver, dependencies: seq<string>, b: string) {
    exists i :: 0 <= i < |dependencies| && b in resolve(dependencies[i])
  }

  method Targets(resolve: Resolver, dependencies: seq<string>) returns (r: set<string>)
    ensures forall b :: b in r <==> Wants(resolve, dependencies, b)
  {
    r := {};
    for i := 0 to |dependencies|
      invariant forall b :: b in r <==> exists k :: 0 <= k < i && b in resolve(dependencies[k])
    {
      var found := resolve(dependencies[i]);
      r := r + set b | b in found;
    }
  }

  /** Each component points at what its dependency strings resolve to; the root has no edges yet. */
  ghost predicate ComponentEdges(resolve: Resolver, deps: map<string, seq<string>>, root: string, edges: Edges<string>) {
    && edges.Keys == deps.Keys + {root}
    && edges[root] == {}
    && forall a :: a in deps ==> forall b :: b in edges[a] <==> Wants(resolve, deps[a], b)
  }

  method AddComponentEdges(resolve: Resolver, deps: map<string, seq<string>>, root: string) returns (edges: Edges<string>)
    requires root !in deps
    ensures ComponentEdges(resolve, deps, root, edges)
  {
    edges := map[root := {}];
    var rest := deps.Keys;
    while rest != {}
      invariant rest <= deps.Keys && edges.Keys == deps.Keys - rest + {root}
      invariant edges[root] == {}
      invariant forall a :: a in deps.Keys - rest ==> forall b :: b in edges[a] <==> Wants(resolve, deps[a], b)
    {
      var a :| a in rest;
      var targets := Targets(resolve, deps[a]);
      edges := edges[a := targets];
      rest := rest - {a};
    }
  }

  /**
   Each component points at what its dependency strings resolve to.  The root points at what its own
   strings resolve to or, when that is nothing, at the components nothing depends on.
   */
  ghost predicate Connected(resolve: Resolver, deps: map<string, seq<string>>, root: string, rootDeps: seq<string>,
                            edges: Edges<string>) {
    && edges.Keys == deps.Keys + {root}
    && (forall a :: a in deps ==> forall b :: b in edges[a] <==> Wants(resolve, deps[a], b))
    && (forall b :: b in edges[root] <==>
          if exists c :: Wants(resolve, rootDeps, c) then Wants(resolve, rootDeps, b)
          else b in deps && forall a :: a in deps ==> !Wants(resolve, deps[a], b))
  }

  /** Builds the edges of a graph whose dependency strings resolve to components only. */
  method ConnectGraph(resolve: Resolver, deps: map<string, seq<string>>, root: string, rootDeps: seq<string>,
                      components: seq<Component>)
    returns (edges: Edges<string>)
    requires deps.Keys == Refs(components) && root !in deps
    requires forall d, b :: b in resolve(d) ==> b in Refs(components)
    ensures Connected(resolve, deps, root, rootDeps, edges)
    ensures ClosedGraph(root, components, edges)
  {
    edges := AddComponentEdges(resolve, deps, root);
    var direct := Targets(resolve, rootDeps);
    if direct == {} {
      direct := CollectRootDependencies(edges, components);
      FallbackTargets(resolve, deps, root, edges, direct, Refs(components));
    }
    assert edges[root] + direct == direct;
    edges := edges[root := edges[root] + direct];
  }

  lemma FallbackTargets(resolve: Resolver, deps: map<string, seq<string>>, root: string, edges: Edges<string>,
                        direct: set<string>, refs: set<string>)
    requires ComponentEdges(resolve, deps, root, edges) && root !in deps && refs == deps.Keys
    requires direct == Unreferenced(edges, refs)
    ensures forall b :: b in direct <==> b in deps && forall a :: a in deps ==> !Wants(resolve, deps[a], b)
  {
    forall b ensures b in direct <==> b in deps && forall a :: a in deps ==> !Wants(resolve, deps[a], b) {
      assert forall a :: a in deps ==> (b in edges[a] <==> Wants(resolve, deps[a], b));
    }
  }
}
