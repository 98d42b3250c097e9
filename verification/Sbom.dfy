/**
 The SBOM document built by every loader: a root, components and a dependency map; and the
 root edges a loader falls back to.
 */
module Sbom {
  import opened Wrappers
  import opened Coordinates
  import opened Graph
  import opened Ordering

  datatype Component = Component(
    reference: string,
    coordinate: Coordinate,
    integrity: Option<string>)

  datatype Dependency = Dependency(from: string, to: seq<string>)

  datatype Document = Document(root: string, components: seq<Component>, dependencies: seq<Dependency>)

  function Refs(components: seq<Component>): set<string> {
    set c | c in components :: c.reference
  }

  /** Every component and the root have an entry, and every edge leads to a component. */
  ghost predicate ClosedGraph(root: string, components: seq<Component>, edges: Edges<string>) {
    && edges.Keys == Refs(components) + {root}
    && forall k :: k in edges ==> edges[k] <= Refs(components)
  }

  method DefaultDependencyMap(root: string, components: seq<Component>) returns (edges: Edges<string>)
    ensures ClosedGraph(root, components, edges)
    ensures forall k :: k in edges ==> edges[k] == {}
  {
    edges := map[root := {}];
    for i := 0 to |components|
      invariant edges.Keys == Refs(components[..i]) + {root}
      invariant forall k :: k in edges ==> edges[k] == {}
    {
      edges := edges[components[i].reference := {}];
      RefsStep(components, i);
    }
    assert components[..|components|] == components;
  }

  /** Requirements files and container images have no edges of their own: the root points at everything. */
  method ConnectAll(root: string, components: seq<Component>) returns (edges: Edges<string>)
    ensures ClosedGraph(root, components, edges)
    ensures edges[root] == Refs(components)
    ensures forall k :: k in edges && k != root ==> edges[k] == {}
  {
    edges := DefaultDependencyMap(root, components);
    edges := edges[root := edges[root] + Refs(components)];
  }

  lemma RefsAppend(a: seq<Component>, b: seq<Component>)
    ensures Refs(a + b) == Refs(a) + Refs(b)
  {
    forall r | r in Refs(a) + Refs(b) ensures r in Refs(a + b) {
      var c :| (c in a || c in b) && c.reference == r;
      assert c in a + b;
    }
  }

  lemma RefsStep(components: seq<Component>, i: nat)
    requires i < |components|
    ensures Refs(components[..i + 1]) == Refs(components[..i]) + {components[i].reference}
  {
    assert components[..i + 1] == components[..i] + [components[i]];
    forall r | r in Refs(components[..i]) + {components[i].reference} ensures r in Refs(components[..i + 1]) {
      if r == components[i].reference {
        assert components[i] in components[..i + 1];
      } else {
        var c :| c in components[..i] && c.reference == r;
        assert c in components[..i + 1];
      }
    }
  }

  // ---------------------------------------------------------- the root fallback

  /** Components that no edge leads to. */
  ghost function Unreferenced(edges: Edges<string>, refs: set<string>): set<string> {
    set r | r in refs && forall k :: k in edges ==> r !in edges[k]
  }

  /** Counts incoming edges per component and returns the components nothing depends on. */
  method CollectRootDependencies(edges: Edges<string>, components: seq<Component>) returns (roots: set<string>)
    ensures roots == Unreferenced(edges, Refs(components))
  {
    var refs := Refs(components);
    var counts: map<string, nat> := map r | r in refs :: 0;
    var sources := edges.Keys;
    while sources != {}
      invariant sources <= edges.Keys && counts.Keys == refs
      invariant forall r :: r in refs ==> (counts[r] == 0 <==> forall k :: k in edges.Keys - sources ==> r !in edges[k])
    {
      var source :| source in sources;
      var targets := edges[source];
      while targets != {}
        invariant targets <= edges[source] && counts.Keys == refs
        invariant forall r :: r in refs ==>
                    (counts[r] == 0 <==> (forall k :: k in edges.Keys - sources ==> r !in edges[k])
                                         && r !in edges[source] - targets)
      {
        var target :| target in targets;
        if target in counts {
          counts := counts[target := counts[target] + 1];
        }
        targets := targets - {target};
      }
      assert edges.Keys - (sources - {source}) == (edges.Keys - sources) + {source};
      sources := sources - {source};
    }
    roots := set r | r in counts && counts[r] == 0;
  }

  ghost predicate HasDependent(edges: Edges<string>, n: string) {
    exists k :: Edge(edges, k, n)
  }

  ghost predicate DependentsWithin(edges: Edges<string>, n: string, s: set<string>) {
    forall k :: Edge(edges, k, n) ==> k in s
  }

  /** A set of components in which everything has a dependent, and only dependents from the set itself. */
  ghost predicate Sourceless(edges: Edges<string>, s: set<string>) {
    && s != {}
    && (forall n {:trigger HasDependent(edges, n)} :: n in s ==> HasDependent(edges, n))
    && (forall n {:trigger DependentsWithin(edges, n, s)} :: n in s ==> DependentsWithin(edges, n, s))
  }

  ghost predicate AllReachable(edges: Edges<string>, root: string, refs: set<string>) {
    forall r :: r in refs ==> Reachable(edges, root, r)
  }

  ghost predicate Acyclic(edges: Edges<string>) {
    forall p :: Path(edges, p) && |p| > 1 ==> p[0] != p[|p| - 1]
  }

  ghost predicate RootIsBare(root: string, components: seq<Component>, edges: Edges<string>) {
    ClosedGraph(root, components, edges) && root !in Refs(components) && edges[root] == {}
  }

  /** The graph after the fallback gave the root its edges. */
  ghost function WithFallback(root: string, components: seq<Component>, edges: Edges<string>): Edges<string> {
    edges[root := Unreferenced(edges, Refs(components))]
  }

  lemma OutsideIsClosed(root: string, components: seq<Component>, edges: Edges<string>, s: set<string>, n: string, t: string)
    requires RootIsBare(root, components, edges)
    requires Sourceless(edges, s) && s <= Refs(components)
    requires n !in s && Edge(WithFallback(root, components, edges), n, t)
    ensures t in Refs(components) && t !in s
  {
    assert HasDependent(edges, t) || t !in s;
    assert DependentsWithin(edges, t, s) || t !in s;
    if n == root {
      assert forall k :: Edge(edges, k, t) ==> k in edges;
    } else {
      assert Edge(edges, n, t);
    }
  }

  lemma SourcelessIsUnreached(root: string, components: seq<Component>, edges: Edges<string>, s: set<string>, r: string)
    requires RootIsBare(root, components, edges)
    requires Sourceless(edges, s) && s <= Refs(components) && r in s
    ensures !Reachable(WithFallback(root, components, edges), root, r)
  {
    var g := WithFallback(root, components, edges);
    var outside := Refs(components) + {root} - s;
    forall n, t | n in outside && n in g && t in g[n] ensures t in outside {
      assert Edge(g, n, t);
      OutsideIsClosed(root, components, edges, s, n, t);
    }
    assert Closed(g, outside);
    if Reachable(g, root, r) { ClosedHoldsReachable(g, outside, root, r); }
  }

  lemma UnreachedHasDependent(root: string, components: seq<Component>, edges: Edges<string>, n: string)
    requires RootIsBare(root, components, edges)
    requires n in Refs(components) && !Reachable(WithFallback(root, components, edges), root, n)
    ensures HasDependent(edges, n)
  {
    var g := WithFallback(root, components, edges);
    if forall k :: k in edges ==> n !in edges[k] {
      assert Edge(g, root, n);
      ReachableEdge(g, root, n);
    } else {
      var k :| k in edges && n in edges[k];
      assert Edge(edges, k, n);
    }
  }

  lemma UnreachedIsSourceless(root: string, components: seq<Component>, edges: Edges<string>) returns (s: set<string>)
    requires RootIsBare(root, components, edges)
    requires !AllReachable(WithFallback(root, components, edges), root, Refs(components))
    ensures s <= Refs(components) && Sourceless(edges, s)
  {
    var g, refs := WithFallback(root, components, edges), Refs(components);
    s := set r | r in refs && !Reachable(g, root, r);
    forall n | n in s ensures HasDependent(edges, n) {
      UnreachedHasDependent(root, components, edges, n);
    }
    forall n, k | n in s && Edge(edges, k, n) ensures k in s {
      assert k != root && Edge(g, k, n);
      if Reachable(g, root, k) { ReachableStep(g, root, k, n); }
    }
  }

  /** The fallback connects the whole graph exactly when no part of it is sourceless. */
  lemma FallbackComplete(root: string, components: seq<Component>, edges: Edges<string>)
    requires RootIsBare(root, components, edges)
    ensures AllReachable(WithFallback(root, components, edges), root, Refs(components))
       <==> !exists s :: s <= Refs(components) && Sourceless(edges, s)
  {
    if s :| s <= Refs(components) && Sourceless(edges, s) {
      var r :| r in s;
      SourcelessIsUnreached(root, components, edges, s, r);
    } else if !AllReachable(WithFallback(root, components, edges), root, Refs(components)) {
      var t := UnreachedIsSourceless(root, components, edges);
    }
  }

  /** Inside a sourceless set one can walk backwards as far as one likes. */
  lemma {:induction false} BackwardPath(edges: Edges<string>, s: set<string>, n: nat) returns (p: seq<string>)
    requires Sourceless(edges, s)
    ensures Path(edges, p) && |p| == n + 1 && forall i :: 0 <= i < |p| ==> p[i] in s
  {
    if n == 0 {
      var r :| r in s;
      p := [r];
    } else {
      var q := BackwardPath(edges, s, n - 1);
      assert HasDependent(edges, q[0]) && DependentsWithin(edges, q[0], s);
      var k :| Edge(edges, k, q[0]);
      p := [k] + q;
    }
  }

  lemma {:induction false} Pigeonhole(p: seq<string>, s: set<string>) returns (i: nat, j: nat)
    requires |p| > |s| && forall k :: 0 <= k < |p| ==> p[k] in s
    ensures i < j < |p| && p[i] == p[j]
    decreases |p|
  {
    var last := p[|p| - 1];
    var front := p[..|p| - 1];
    if last in front {
      i :| 0 <= i < |front| && front[i] == last;
      j := |p| - 1;
    } else {
      forall k | 0 <= k < |front| ensures front[k] in s - {last} { assert front[k] in front; }
      i, j := Pigeonhole(front, s - {last});
    }
  }

  lemma SourcelessHasCycle(edges: Edges<string>, s: set<string>)
    requires Sourceless(edges, s)
    ensures !Acyclic(edges)
  {
    var p := BackwardPath(edges, s, |s|);
    var i, j := Pigeonhole(p, s);
    var c := p[i..j + 1];
    assert Path(edges, c) by {
      forall k | 0 <= k < |c| - 1 ensures Edge(edges, c[k], c[k + 1]) {
        assert Edge(edges, p[i + k], p[i + k + 1]);
      }
    }
    assert c[0] == c[|c| - 1];
  }

  /** On acyclic graphs the fallback makes every component reachable from the root. */
  lemma FallbackOnAcyclic(root: string, components: seq<Component>, edges: Edges<string>)
    requires RootIsBare(root, components, edges) && Acyclic(edges)
    ensures AllReachable(WithFallback(root, components, edges), root, Refs(components))
  {
    FallbackComplete(root, components, edges);
    if s :| s <= Refs(components) && Sourceless(edges, s) { SourcelessHasCycle(edges, s); }
  }

  /** Two components that only depend on each other stay unconnected: the cycle case is real. */
  lemma FallbackMissesCycle(root: string, a: Component, b: Component, edges: Edges<string>)
    requires root != a.reference && root != b.reference && a.reference != b.reference
    requires edges == map[root := {}, a.reference := {b.reference}, b.reference := {a.reference}]
    ensures RootIsBare(root, [a, b], edges)
    ensures !Reachable(WithFallback(root, [a, b], edges), root, a.reference)
    ensures !Reachable(WithFallback(root, [a, b], edges), root, b.reference)
  {
    var s := {a.reference, b.reference};
    assert Refs([a, b]) == s by { assert a in [a, b] && b in [a, b]; }
    assert Edge(edges, a.reference, b.reference) && Edge(edges, b.reference, a.reference);
    assert HasDependent(edges, a.reference) && HasDependent(edges, b.reference);
    SourcelessIsUnreached(root, [a, b], edges, s, a.reference);
    SourcelessIsUnreached(root, [a, b], edges, s, b.reference);
  }
}
