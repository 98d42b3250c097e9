/** Version 1 `package-lock.json` files: a nested forest of dependencies, flattened by reference. */
module LegacyNpm {
  import opened Wrappers
  import opened Coordinates
  import opened Graph
  import opened References
  import opened Sbom
  import opened Text

  /** An entry of the lockfile under its name. */
  datatype Entry = Entry(
    name: string, version: Option<string>, integrity: Option<string>, dependencies: seq<Entry>)

  /** The same forest with each entry replaced by the component it stands for. */
  datatype Legacy = Legacy(component: Component, dependencies: seq<Legacy>)

  function LegacyRef(n: Legacy): string {
    n.component.reference
  }

  /** Splits `@scope/name`. */
  function SplitNpmName(raw: string): (Option<string>, string) {
    if "@" <= raw && '/' in raw[1..] then
      var (scope, name) := SplitOnce(raw[1..], '/').value;
      (Some(scope), name)
    else (None, raw)
  }

  /** `@s/n` has the namespace `s` and the name `n`. */
  lemma ScopedName(s: string, n: string)
    requires '/' !in s
    ensures SplitNpmName("@" + s + "/" + n) == (Some(s), n)
  {
    var raw := "@" + s + "/" + n;
    assert raw[1..] == s + ['/'] + n && raw[..1] == "@";
    assert raw[1..][|s|] == '/';
    SplitOnceAt(s, '/', n);
  }

  lemma UnscopedName(raw: string)
    requires raw == "" || raw[0] != '@'
    ensures SplitNpmName(raw) == (None, raw)
  {
  }

  function NpmComponent(reference: string, rawName: string, version: Option<string>, integrity: Option<string>): Component {
    var (namespace, name) := SplitNpmName(rawName);
    Component(reference, Coordinate(Npm, name, version, namespace), integrity)
  }

  function EntryRef(e: Entry): string {
    "npm:legacy:" + Sanitize(e.name) + ":" + Sanitize(e.version.UnwrapOr("unspecified"))
  }

  function FromEntry(e: Entry): Legacy {
    Legacy(NpmComponent(EntryRef(e), e.name, e.version, e.integrity), FromEntries(e.dependencies))
  }

  function FromEntries(es: seq<Entry>): seq<Legacy> {
    if es == [] then [] else [FromEntry(es[0])] + FromEntries(es[1..])
  }

  // ------------------------------------------------------- what the forest says

  /** The components of all nodes, parents before children. */
  function PreOrder(ns: seq<Legacy>): seq<Component>
    decreases ns
  {
    if ns == [] then [] else [ns[0].component] + PreOrder(ns[0].dependencies) + PreOrder(ns[1..])
  }

  function RefSet(ns: seq<Legacy>): set<string> {
    set n | n in ns :: LegacyRef(n)
  }

  function Star(from: string, to: set<string>): set<(string, string)> {
    set r | r in to :: (from, r)
  }

  /** The references of each node paired with those of its children, for all nodes of the forest. */
  function ChildEdges(ns: seq<Legacy>): set<(string, string)>
    decreases ns
  {
    if ns == [] then {}
    else Star(LegacyRef(ns[0]), RefSet(ns[0].dependencies)) + ChildEdges(ns[0].dependencies) + ChildEdges(ns[1..])
  }

  // ------------------------------------------------------------- first one wins

  function Put(m: map<string, Component>, c: Component): map<string, Component> {
    if c.reference in m then m else m[c.reference := c]
  }

  /** Keeps the first component for each reference. */
  function AddFirst(m: map<string, Component>, cs: seq<Component>): map<string, Component>
    decreases |cs|
  {
    if cs == [] then m else AddFirst(Put(m, cs[0]), cs[1..])
  }

  lemma {:induction false} AddFirstAppend(m: map<string, Component>, a: seq<Component>, b: seq<Component>)
    ensures AddFirst(m, a + b) == AddFirst(AddFirst(m, a), b)
    decreases |a|
  {
    if a == [] {
      assert a + b == b;
    } else {
      assert (a + b)[1..] == a[1..] + b;
      AddFirstAppend(Put(m, a[0]), a[1..], b);
    }
  }

  ghost predicate FirstWith(cs: seq<Component>, r: string, c: Component) {
    exists i :: 0 <= i < |cs| && cs[i] == c && c.reference == r && forall j :: 0 <= j < i ==> cs[j].reference != r
  }

  lemma RefsCons(c: Component, cs: seq<Component>)
    ensures Refs([c] + cs) == {c.reference} + Refs(cs)
  {
    forall r | r in {c.reference} + Refs(cs) ensures r in Refs([c] + cs) {
      if r == c.reference {
        assert c in [c] + cs;
      } else {
        var d :| d in cs && d.reference == r;
        assert d in [c] + cs;
      }
    }
  }

  lemma FirstWithCons(c: Component, cs: seq<Component>, r: string, d: Component)
    requires c.reference != r && FirstWith(cs, r, d)
    ensures FirstWith([c] + cs, r, d)
  {
    var i :| 0 <= i < |cs| && cs[i] == d && d.reference == r && forall j :: 0 <= j < i ==> cs[j].reference != r;
    assert ([c] + cs)[i + 1] == d;
  }

  /** Recorded components are the first ones in order that carry their reference. */
  lemma {:induction false} AddFirstIsFirst(m: map<string, Component>, cs: seq<Component>)
    ensures AddFirst(m, cs).Keys == m.Keys + Refs(cs)
    ensures forall r :: r in m ==> AddFirst(m, cs)[r] == m[r]
    ensures forall r :: r in Refs(cs) && r !in m ==> FirstWith(cs, r, AddFirst(m, cs)[r])
    decreases |cs|
  {
    if cs != [] {
      var c, rest := cs[0], cs[1..];
      AddFirstIsFirst(Put(m, c), rest);
      assert cs == [c] + rest;
      RefsCons(c, rest);
      FirstOfCons(m, c, rest, AddFirst(Put(m, c), rest));
    }
  }

  lemma FirstOfCons(m: map<string, Component>, c: Component, rest: seq<Component>, all: map<string, Component>)
    requires all.Keys == Put(m, c).Keys + Refs(rest)
    requires forall r :: r in Put(m, c) ==> all[r] == Put(m, c)[r]
    requires forall r :: r in Refs(rest) && r !in Put(m, c) ==> FirstWith(rest, r, all[r])
    ensures forall r :: r in Refs(rest) + {c.reference} && r !in m ==> FirstWith([c] + rest, r, all[r])
  {
    forall r | r in Refs(rest) + {c.reference} && r !in m ensures FirstWith([c] + rest, r, all[r]) {
      if r == c.reference {
        assert ([c] + rest)[0] == c;
      } else {
        FirstWithCons(c, rest, r, all[r]);
      }
    }
  }

  // -------------------------------------------------------------- the collector

  /** The two maps that the recursion fills. */
  class Collector {
    var components: map<string, Component>
    var edges: Edges<string>

    constructor (root: string)
      ensures components == map[] && edges == map[root := {}]
    {
      components, edges := map[], map[root := {}];
    }

    /** Records a node and everything below it, and returns the node's reference. */
    method Collect(n: Legacy) returns (reference: string)
      modifies this
      ensures reference == LegacyRef(n)
      ensures components == AddFirst(old(components), PreOrder([n]))
      ensures edges.Keys == old(edges).Keys + Refs(PreOrder([n]))
      ensures EdgePairs(edges) == EdgePairs(old(edges)) + ChildEdges([n])
      decreases n, 1
    {
      OneNode(components, n);
      reference := LegacyRef(n);
      if reference !in components {
        components := components[reference := n.component];
      }
      var children := CollectAll(n, n.dependencies);
      PairsWithTargets(edges, reference, children);
      edges := WithTargets(edges, reference, children);
    }

    /** Records a list of siblings below `parent` and returns their references. */
    method CollectAll(ghost parent: Legacy, ns: seq<Legacy>) returns (references: set<string>)
      requires forall n :: n in ns ==> n < parent
      modifies this
      ensures references == RefSet(ns)
      ensures components == AddFirst(old(components), PreOrder(ns))
      ensures edges.Keys == old(edges).Keys + Refs(PreOrder(ns))
      ensures EdgePairs(edges) == EdgePairs(old(edges)) + ChildEdges(ns)
      decreases parent, 0
    {
      references := {};
      for i := 0 to |ns|
        invariant references == RefSet(ns[..i])
        invariant components == AddFirst(old(components), PreOrder(ns[..i]))
        invariant edges.Keys == old(edges).Keys + Refs(PreOrder(ns[..i]))
        invariant EdgePairs(edges) == EdgePairs(old(edges)) + ChildEdges(ns[..i])
      {
        Siblings(old(components), ns, i);
        var child := Collect(ns[i]);
        references := references + {child};
      }
      assert ns[..|ns|] == ns;
    }
  }

  lemma {:induction false} PreOrderAppend(a: seq<Legacy>, b: seq<Legacy>)
    ensures PreOrder(a + b) == PreOrder(a) + PreOrder(b)
    ensures ChildEdges(a + b) == ChildEdges(a) + ChildEdges(b)
    decreases |a|
  {
    if a == [] {
      assert a + b == b;
    } else {
      assert (a + b)[1..] == a[1..] + b;
      PreOrderAppend(a[1..], b);
    }
  }

  lemma RefSetPrefix(ns: seq<Legacy>, i: nat)
    requires i < |ns|
    ensures RefSet(ns[..i + 1]) == RefSet(ns[..i]) + {LegacyRef(ns[i])}
  {
    assert ns[..i + 1] == ns[..i] + [ns[i]];
    forall r | r in RefSet(ns[..i]) + {LegacyRef(ns[i])} ensures r in RefSet(ns[..i + 1]) {
      if r == LegacyRef(ns[i]) {
        assert ns[i] in ns[..i + 1];
      } else {
        var n :| n in ns[..i] && LegacyRef(n) == r;
        assert n in ns[..i + 1];
      }
    }
  }

  /** What one more sibling adds. */
  lemma Siblings(m: map<string, Component>, ns: seq<Legacy>, i: nat)
    requires i < |ns|
    ensures ns[i] in ns
    ensures RefSet(ns[..i + 1]) == RefSet(ns[..i]) + {LegacyRef(ns[i])}
    ensures AddFirst(m, PreOrder(ns[..i + 1])) == AddFirst(AddFirst(m, PreOrder(ns[..i])), PreOrder([ns[i]]))
    ensures Refs(PreOrder(ns[..i + 1])) == Refs(PreOrder(ns[..i])) + Refs(PreOrder([ns[i]]))
    ensures ChildEdges(ns[..i + 1]) == ChildEdges(ns[..i]) + ChildEdges([ns[i]])
  {
    RefSetPrefix(ns, i);
    assert ns[..i + 1] == ns[..i] + [ns[i]];
    PreOrderAppend(ns[..i], [ns[i]]);
    RefsAppend(PreOrder(ns[..i]), PreOrder([ns[i]]));
    AddFirstAppend(m, PreOrder(ns[..i]), PreOrder([ns[i]]));
  }

  lemma OneNode(m: map<string, Component>, n: Legacy)
    ensures Refs(PreOrder([n])) == {LegacyRef(n)} + Refs(PreOrder(n.dependencies))
    ensures ChildEdges([n]) == Star(LegacyRef(n), RefSet(n.dependencies)) + ChildEdges(n.dependencies)
    ensures AddFirst(m, PreOrder([n])) == AddFirst(Put(m, n.component), PreOrder(n.dependencies))
  {
    var c, below := n.component, PreOrder(n.dependencies);
    assert [n][1..] == [];
    assert PreOrder([n]) == [c] + below;
    RefsCons(c, below);
    assert ([c] + below)[1..] == below;
  }

  // ----------------------------------------------------------- the whole lockfile

  /**
   Loads a legacy lockfile: components are the first node of each reference, edges are exactly the
   image of the parent-child relation with the project above the top level.
   */
  method LoadLegacy(root: string, entries: seq<Entry>) returns (components: map<string, Component>, edges: Edges<string>)
    ensures edges.Keys == {root} + components.Keys
    ensures components.Keys == set e | e in AllEntries(entries) :: EntryText(e)
    ensures forall r :: r in components ==> IsFirstEntry(AllEntries(entries), r, components[r])
    ensures forall a, b :: Edge(edges, a, b) <==>
              || (a == root && exists e :: e in entries && b == EntryText(e))
              || exists x, y :: x in AllEntries(entries) && y in x.dependencies && a == EntryText(x) && b == EntryText(y)
    ensures forall r :: r in components ==> Reachable(edges, root, r)
    ensures forall a, b :: Edge(edges, a, b) ==> b in components
  {
    var top := FromEntries(entries);
    components, edges := LoadForest(root, top);
    AddFirstIsFirst(map[], PreOrder(top));
    EntriesOfComponents(entries, components);
    forall a, b ensures Edge(edges, a, b) <==> (a == root && b in RefSet(top)) || (a, b) in ChildEdges(top) {
      assert Edge(edges, a, b) <==> (a, b) in EdgePairs(edges);
    }
    forall a, b ensures (a, b) in ChildEdges(top) <==>
      exists x, y :: x in AllEntries(entries) && y in x.dependencies && a == EntryText(x) && b == EntryText(y)
    {
      ChildrenOfEntries(entries, a, b);
    }
    forall b ensures b in RefSet(top) <==> IsRefOf(entries, b) { TopOfEntries(entries, b); }
    LegacyConnected(root, top, edges);
    ChildEdgesWithin(top);
  }

  // ------------------------------------------------------- the forest, entry by entry

  /** All entries of the lockfile, parents before children. */
  function AllEntries(es: seq<Entry>): seq<Entry>
    decreases es
  {
    if es == [] then [] else [es[0]] + AllEntries(es[0].dependencies) + AllEntries(es[1..])
  }

  function EntryText(e: Entry): string {
    "npm:legacy:" + Sanitize(e.name) + ":" + Sanitize(if e.version.Some? then e.version.value else "unspecified")
  }

  ghost predicate IsComponentOf(c: Component, e: Entry) {
    && c.reference == EntryText(e)
    && c.coordinate == Coordinate(Npm, SplitNpmName(e.name).1, e.version, SplitNpmName(e.name).0)
    && c.integrity == e.integrity
  }

  /** `c` is the component of the first entry with this reference. */
  ghost predicate IsFirstEntry(es: seq<Entry>, r: string, c: Component) {
    exists i :: 0 <= i < |es| && EntryText(es[i]) == r && IsComponentOf(c, es[i]) && forall j :: 0 <= j < i ==> EntryText(es[j]) != r
  }

  ghost predicate Mirrors(cs: seq<Component>, es: seq<Entry>) {
    |cs| == |es| && forall i :: 0 <= i < |cs| ==> IsComponentOf(cs[i], es[i])
  }

  lemma MirrorsAppend(a: seq<Component>, x: seq<Entry>, b: seq<Component>, y: seq<Entry>)
    requires Mirrors(a, x) && Mirrors(b, y)
    ensures Mirrors(a + b, x + y)
  {
  }

  lemma EntryMirrored(e: Entry)
    ensures IsComponentOf(FromEntry(e).component, e) && LegacyRef(FromEntry(e)) == EntryText(e)
  {
  }

  lemma {:induction false} PreOrderMirrors(es: seq<Entry>)
    ensures Mirrors(PreOrder(FromEntries(es)), AllEntries(es))
    decreases es
  {
    if es != [] {
      var ns := FromEntries(es);
      assert ns[0] == FromEntry(es[0]) && ns[1..] == FromEntries(es[1..]);
      EntryMirrored(es[0]);
      PreOrderMirrors(es[0].dependencies);
      PreOrderMirrors(es[1..]);
      assert Mirrors([ns[0].component], [es[0]]);
      MirrorsAppend([ns[0].component], [es[0]], PreOrder(ns[0].dependencies), AllEntries(es[0].dependencies));
      MirrorsAppend([ns[0].component] + PreOrder(ns[0].dependencies), [es[0]] + AllEntries(es[0].dependencies),
                    PreOrder(ns[1..]), AllEntries(es[1..]));
    }
  }

  lemma MirroredRefs(cs: seq<Component>, es: seq<Entry>)
    requires Mirrors(cs, es)
    ensures Refs(cs) == set e | e in es :: EntryText(e)
  {
    forall r | r in Refs(cs) ensures r in set e | e in es :: EntryText(e) {
      var i :| 0 <= i < |cs| && cs[i].reference == r;
      assert es[i] in es && EntryText(es[i]) == r;
    }
    forall r | r in set e | e in es :: EntryText(e) ensures r in Refs(cs) {
      var i :| 0 <= i < |es| && EntryText(es[i]) == r;
      assert cs[i] in cs && cs[i].reference == r;
    }
  }

  lemma MirroredFirst(cs: seq<Component>, es: seq<Entry>, r: string, c: Component)
    requires Mirrors(cs, es) && FirstWith(cs, r, c)
    ensures IsFirstEntry(es, r, c)
  {
    var i :| 0 <= i < |cs| && cs[i] == c && c.reference == r && forall j :: 0 <= j < i ==> cs[j].reference != r;
    assert forall j :: 0 <= j < i ==> EntryText(es[j]) == cs[j].reference;
  }

  lemma EntriesOfComponents(entries: seq<Entry>, components: map<string, Component>)
    requires components.Keys == Refs(PreOrder(FromEntries(entries)))
    requires forall r :: r in components ==> FirstWith(PreOrder(FromEntries(entries)), r, components[r])
    ensures components.Keys == set e | e in AllEntries(entries) :: EntryText(e)
    ensures forall r :: r in components ==> IsFirstEntry(AllEntries(entries), r, components[r])
  {
    var cs, es := PreOrder(FromEntries(entries)), AllEntries(entries);
    PreOrderMirrors(entries);
    MirroredRefs(cs, es);
    forall r | r in components ensures IsFirstEntry(es, r, components[r]) { MirroredFirst(cs, es, r, components[r]); }
  }

  /** The reference belongs to one of these entries. */
  ghost predicate IsRefOf(es: seq<Entry>, b: string) {
    exists e :: e in es && b == EntryText(e)
  }

  lemma IsRefOfCons(e: Entry, es: seq<Entry>, b: string)
    ensures IsRefOf([e] + es, b) <==> EntryText(e) == b || IsRefOf(es, b)
  {
    assert forall x :: x in [e] + es <==> x == e || x in es;
  }

  lemma {:induction false} TopOfEntries(es: seq<Entry>, b: string)
    ensures b in RefSet(FromEntries(es)) <==> IsRefOf(es, b)
  {
    if es != [] {
      EntryMirrored(es[0]);
      TopOfEntries(es[1..], b);
      RefSetCons(FromEntry(es[0]), FromEntries(es[1..]), b);
      IsRefOfCons(es[0], es[1..], b);
      assert es == [es[0]] + es[1..];
    }
  }

  lemma RefSetCons(n: Legacy, ns: seq<Legacy>, b: string)
    ensures b in RefSet([n] + ns) <==> LegacyRef(n) == b || b in RefSet(ns)
  {
    assert forall x :: x in [n] + ns <==> x == n || x in ns;
  }

  ghost predicate ChildOf(all: seq<Entry>, a: string, b: string) {
    exists x, y :: x in all && y in x.dependencies && a == EntryText(x) && b == EntryText(y)
  }

  lemma ChildOfAppend(x: seq<Entry>, y: seq<Entry>, a: string, b: string)
    ensures ChildOf(x + y, a, b) <==> ChildOf(x, a, b) || ChildOf(y, a, b)
  {
    assert forall e :: e in x + y <==> e in x || e in y;
  }

  lemma {:induction false} ChildrenOfEntries(es: seq<Entry>, a: string, b: string)
    ensures (a, b) in ChildEdges(FromEntries(es)) <==> ChildOf(AllEntries(es), a, b)
    decreases es
  {
    if es != [] {
      var e, ns := es[0], FromEntries(es);
      assert ns[0] == FromEntry(e) && ns[1..] == FromEntries(es[1..]);
      EntryMirrored(e);
      TopOfEntries(e.dependencies, b);
      ChildrenOfEntries(e.dependencies, a, b);
      ChildrenOfEntries(es[1..], a, b);
      ChildOfAppend([e] + AllEntries(e.dependencies), AllEntries(es[1..]), a, b);
      ChildOfAppend([e], AllEntries(e.dependencies), a, b);
      assert ChildOf([e], a, b) <==> a == EntryText(e) && exists y :: y in e.dependencies && b == EntryText(y) by {
        assert e in [e];
      }
    }
  }

  method LoadForest(root: string, top: seq<Legacy>) returns (components: map<string, Component>, edges: Edges<string>)
    ensures components == AddFirst(map[], PreOrder(top))
    ensures edges.Keys == {root} + components.Keys
    ensures EdgePairs(edges) == Star(root, RefSet(top)) + ChildEdges(top)
  {
    var c := new Collector(root);
    assert EdgePairs(c.edges) == {};
    for i := 0 to |top|
      invariant c.components == AddFirst(map[], PreOrder(top[..i]))
      invariant c.edges.Keys == {root} + Refs(PreOrder(top[..i]))
      invariant EdgePairs(c.edges) == Star(root, RefSet(top[..i])) + ChildEdges(top[..i])
    {
      Siblings(map[], top, i);
      ghost var before := c.edges;
      var reference := c.Collect(top[i]);
      TopStep(root, top, i, before, c.edges);
      c.edges := WithTargets(c.edges, root, {reference});
    }
    assert top[..|top|] == top;
    AddFirstIsFirst(map[], PreOrder(top));
    components, edges := c.components, c.edges;
  }

  /** What one more top-level entry adds to the edges. */
  lemma TopStep(root: string, top: seq<Legacy>, i: nat, before: Edges<string>, now: Edges<string>)
    requires i < |top| && root in now
    requires EdgePairs(before) == Star(root, RefSet(top[..i])) + ChildEdges(top[..i])
    requires EdgePairs(now) == EdgePairs(before) + ChildEdges([top[i]])
    ensures var edges := WithTargets(now, root, {LegacyRef(top[i])});
            && edges.Keys == now.Keys
            && EdgePairs(edges) == Star(root, RefSet(top[..i + 1])) + ChildEdges(top[..i + 1])
  {
    var reference := LegacyRef(top[i]);
    Siblings(map[], top, i);
    PairsWithTargets(now, root, {reference});
    StarStep(root, RefSet(top[..i]), reference);
  }

  lemma StarStep(from: string, to: set<string>, r: string)
    ensures Star(from, to + {r}) == Star(from, to) + Star(from, {r})
  {
  }

  lemma {:induction false} ChildrenReachable(edges: Edges<string>, root: string, ns: seq<Legacy>)
    requires ChildEdges(ns) <= EdgePairs(edges)
    requires forall r :: r in RefSet(ns) ==> Reachable(edges, root, r)
    ensures forall r :: r in Refs(PreOrder(ns)) ==> Reachable(edges, root, r)
    decreases ns
  {
    if ns != [] {
      var n := ns[0];
      assert n in ns;
      forall r | r in RefSet(n.dependencies) ensures Reachable(edges, root, r) {
        assert (LegacyRef(n), r) in EdgePairs(edges);
        ReachableStep(edges, root, LegacyRef(n), r);
      }
      ChildrenReachable(edges, root, n.dependencies);
      ChildrenReachable(edges, root, ns[1..]);
      RefsCons(n.component, PreOrder(n.dependencies));
      RefsAppend([n.component] + PreOrder(n.dependencies), PreOrder(ns[1..]));
    }
  }

  /** Every component of a legacy lockfile is reachable from the project. */
  lemma LegacyConnected(root: string, top: seq<Legacy>, edges: Edges<string>)
    requires EdgePairs(edges) == Star(root, RefSet(top)) + ChildEdges(top)
    ensures forall r :: r in Refs(PreOrder(top)) ==> Reachable(edges, root, r)
  {
    forall r | r in RefSet(top) ensures Reachable(edges, root, r) {
      assert (root, r) in EdgePairs(edges);
      ReachableEdge(edges, root, r);
    }
    ChildrenReachable(edges, root, top);
  }

  lemma {:induction false} ChildEdgesWithin(ns: seq<Legacy>)
    ensures RefSet(ns) <= Refs(PreOrder(ns))
    ensures forall p :: p in ChildEdges(ns) ==> p.1 in Refs(PreOrder(ns))
    decreases ns
  {
    if ns != [] {
      var n := ns[0];
      ChildEdgesWithin(n.dependencies);
      ChildEdgesWithin(ns[1..]);
      RefsCons(n.component, PreOrder(n.dependencies));
      RefsAppend([n.component] + PreOrder(n.dependencies), PreOrder(ns[1..]));
      assert ns == [n] + ns[1..];
    }
  }

  /** The edges of a legacy lockfile lead to its components only. */
  lemma LegacyClosed(root: string, top: seq<Legacy>, edges: Edges<string>)
    requires edges.Keys == {root} + Refs(PreOrder(top))
    requires EdgePairs(edges) == Star(root, RefSet(top)) + ChildEdges(top)
    ensures ClosedGraph(root, PreOrder(top), edges)
  {
    ChildEdgesWithin(top);
    forall k, b | k in edges && b in edges[k] ensures b in Refs(PreOrder(top)) {
      assert (k, b) in EdgePairs(edges);
    }
  }
}
