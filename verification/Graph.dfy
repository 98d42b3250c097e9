/** Finite directed graphs given by adjacency sets, and reachability in them. */
module Graph {

  type Edges<N(==)> = map<N, set<N>>

  predicate Edge<N>(g: Edges<N>, a: N, b: N) {
    a in g && b in g[a]
  }

  ghost predicate Path<N>(g: Edges<N>, p: seq<N>) {
    && p != []
    && forall i :: 0 <= i < |p| - 1 ==> Edge(g, p[i], p[i + 1])
  }

  ghost predicate Connects<N>(g: Edges<N>, p: seq<N>, a: N, b: N) {
    Path(g, p) && p[0] == a && p[|p| - 1] == b
  }

  ghost predicate Reachable<N(!new)>(g: Edges<N>, a: N, b: N) {
    exists p :: Connects(g, p, a, b)
  }

  /** A set that no edge leaves. */
  ghost predicate Closed<N>(g: Edges<N>, s: set<N>) {
    forall n :: n in s && n in g ==> g[n] <= s
  }

  lemma ReachableSelf<N(!new)>(g: Edges<N>, a: N)
    ensures Reachable(g, a, a)
  {
    assert Connects(g, [a], a, a);
  }

  lemma ReachableStep<N(!new)>(g: Edges<N>, a: N, b: N, c: N)
    requires Reachable(g, a, b) && Edge(g, b, c)
    ensures Reachable(g, a, c)
  {
    var p :| Connects(g, p, a, b);
    assert Connects(g, p + [c], a, c);
  }

  lemma ReachableTransitive<N(!new)>(g: Edges<N>, a: N, b: N, c: N)
    requires Reachable(g, a, b) && Reachable(g, b, c)
    ensures Reachable(g, a, c)
  {
    var p :| Connects(g, p, a, b);
    var q :| Connects(g, q, b, c);
    assert Connects(g, p + q[1..], a, c);
  }

  lemma ReachableEdge<N(!new)>(g: Edges<N>, a: N, b: N)
    requires Edge(g, a, b)
    ensures Reachable(g, a, b)
  {
    ReachableSelf(g, a);
    ReachableStep(g, a, a, b);
  }

  /** A path that starts in a closed set stays in it. */
  lemma {:induction false} PathStaysInClosed<N>(g: Edges<N>, s: set<N>, p: seq<N>)
    requires Closed(g, s) && Path(g, p) && p[0] in s
    ensures p[|p| - 1] in s
  {
    if |p| > 1 {
      assert Edge(g, p[0], p[1]);
      assert Path(g, p[1..]) by {
        forall i | 0 <= i < |p[1..]| - 1 ensures Edge(g, p[1..][i], p[1..][i + 1]) {
          assert Edge(g, p[i + 1], p[i + 1 + 1]);
        }
      }
      PathStaysInClosed(g, s, p[1..]);
    }
  }

  lemma ClosedHoldsReachable<N(!new)>(g: Edges<N>, s: set<N>, a: N, b: N)
    requires Closed(g, s) && a in s && Reachable(g, a, b)
    ensures b in s
  {
    var p :| Connects(g, p, a, b);
    PathStaysInClosed(g, s, p);
  }

  /** Adding edges keeps every path. */
  lemma ReachableMonotone<N(!new)>(g: Edges<N>, h: Edges<N>, a: N, b: N)
    requires Reachable(g, a, b)
    requires forall x, y :: Edge(g, x, y) ==> Edge(h, x, y)
    ensures Reachable(h, a, b)
  {
    var p :| Connects(g, p, a, b);
    assert Connects(h, p, a, b);
  }

  // ------------------------------------------------------------- building graphs

  function EdgePairs<N>(g: Edges<N>): set<(N, N)> {
    set a, b | a in g && b in g[a] :: (a, b)
  }

  function WithKey<N>(g: Edges<N>, key: N): Edges<N> {
    if key in g then g else g[key := {}]
  }

  function WithTargets<N>(g: Edges<N>, from: N, to: set<N>): Edges<N> {
    var h := WithKey(g, from);
    h[from := h[from] + to]
  }

  lemma PairsWithTargets<N>(g: Edges<N>, a: N, bs: set<N>)
    ensures EdgePairs(WithTargets(g, a, bs)) == EdgePairs(g) + set b | b in bs :: (a, b)
  {
    var h, more := WithTargets(g, a, bs), set b | b in bs :: (a, b);
    forall x, y ensures Edge(h, x, y) <==> Edge(g, x, y) || (x == a && y in bs) {
    }
    forall p ensures p in EdgePairs(h) <==> p in EdgePairs(g) + more {
      assert p in EdgePairs(h) <==> Edge(h, p.0, p.1);
      assert p in EdgePairs(g) <==> Edge(g, p.0, p.1);
      assert p in more <==> p.0 == a && p.1 in bs;
    }
  }

  lemma PairsWithKey<N>(g: Edges<N>, key: N)
    ensures EdgePairs(WithKey(g, key)) == EdgePairs(g)
  {
    forall p ensures p in EdgePairs(WithKey(g, key)) <==> p in EdgePairs(g) {
      assert p in EdgePairs(WithKey(g, key)) <==> Edge(WithKey(g, key), p.0, p.1);
      assert p in EdgePairs(g) <==> Edge(g, p.0, p.1);
    }
  }
}
