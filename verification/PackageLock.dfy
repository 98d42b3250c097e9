/** Version 2 and 3 `package-lock.json` files: packages by install path. */
module PackageLock {
  import opened Wrappers
  import opened Text
  import opened Coordinates
  import opened Graph
  import opened References
  import opened Sbom
  import opened NodeModules
  import LegacyNpm
  import Ordering

  datatype PackageEntry = PackageEntry(version: Option<string>, integrity: Option<string>, dependencies: set<string>)

  function TrimStartText(s: string, prefix: string): string
    requires prefix != ""
    decreases |s|
  {
    if prefix <= s then TrimStartText(s[|prefix|..], prefix) else s
  }

  /** The package name at the end of an install path. */
  function PackageName(path: string): Option<string> {
    var trimmed := TrimMatches(path, Is('/'));
    var last := match LastText(trimmed, SEP, |trimmed|)
      case Some(k) => trimmed[k + |SEP|..]
      case None => trimmed;
    var name := Trim(TrimStartText(last, "node_modules/"));
    if name == "" then None else Some(name)
  }

  predicate IsInstalled(path: string) {
    path != "" && Contains(path, "node_modules/") && PackageName(path).Some?
  }

  function PathRef(path: string): string {
    "npm:path:" + Sanitize(path)
  }

  /** References of the installed packages by path. */
  function PathRefs(packages: map<string, PackageEntry>): map<string, string> {
    map p | p in packages && IsInstalled(p) :: PathRef(p)
  }

  /** The part of the references that belongs to the given paths. */
  ghost predicate Collected(refs: map<string, string>, goal: map<string, string>, paths: seq<string>) {
    && refs.Keys == (set p | p in paths && p in goal)
    && forall p :: p in refs ==> refs[p] == goal[p]
  }

  lemma CollectedStep(refs: map<string, string>, goal: map<string, string>, paths: seq<string>, i: nat, next: map<string, string>)
    requires i < |paths| && Collected(refs, goal, paths[..i])
    requires next == if paths[i] in goal then refs[paths[i] := goal[paths[i]]] else refs
    ensures Collected(next, goal, paths[..i + 1])
  {
    assert paths[..i + 1] == paths[..i] + [paths[i]];
  }

  lemma CollectedAll(refs: map<string, string>, goal: map<string, string>, paths: seq<string>)
    requires Collected(refs, goal, paths) && forall p :: p in goal ==> p in paths
    ensures refs == goal
  {
  }

  /** One component per installed path, in path order. */
  ghost predicate Describe(components: seq<Component>, packages: map<string, PackageEntry>, listed: seq<string>) {
    && |components| == |listed|
    && forall i :: 0 <= i < |listed| ==>
         && listed[i] in packages && PackageName(listed[i]).Some?
         && components[i] == PathComponent(listed[i], packages[listed[i]])
  }

  lemma DescribeOneMore(components: seq<Component>, packages: map<string, PackageEntry>, listed: seq<string>, path: string, c: Component)
    requires Describe(components, packages, listed)
    requires path in packages && PackageName(path).Some? && c == PathComponent(path, packages[path])
    ensures Describe(components + [c], packages, listed + [path])
  {
  }

  /** A later path of an ascending list goes to the end of a listing of earlier ones. */
  lemma ListsOneMore(paths: seq<string>, i: nat, listed: seq<string>, s: set<string>)
    requires Ordering.Ascending(paths) && i < |paths| && Ordering.Lists(listed, s)
    requires forall p :: p in s ==> p in paths[..i]
    ensures Ordering.Lists(listed + [paths[i]], s + {paths[i]})
  {
    forall k | 0 <= k < |listed| ensures Ordering.Less(listed[k], paths[i]) {
      assert listed[k] in paths[..i];
    }
  }

  method CollectComponents(packages: map<string, PackageEntry>)
    returns (components: seq<Component>, refs: map<string, string>, ghost listed: seq<string>)
    ensures refs == PathRefs(packages)
    ensures Refs(components) == refs.Values
    ensures Ordering.Lists(listed, refs.Keys) && Describe(components, packages, listed)
  {
    components, refs, listed := [], map[], [];
    ghost var goal := PathRefs(packages);
    var paths := Ordering.Enumerate(packages.Keys);
    for i := 0 to |paths|
      invariant Collected(refs, goal, paths[..i])
      invariant Refs(components) == refs.Values
      invariant Ordering.Lists(listed, refs.Keys) && Describe(components, packages, listed)
    {
      PathIsNew(paths, i);
      ListsOneMore(paths, i, listed, refs.Keys);
      assert paths[i] in packages.Keys;
      ghost var before := refs;
      components, refs, listed := CollectOne(packages, paths[i], components, refs, listed);
      CollectedStep(before, goal, paths, i, refs);
    }
    assert paths[..|paths|] == paths;
    CollectedAll(refs, goal, paths);
  }

  method CollectOne(packages: map<string, PackageEntry>, path: string,
                    components: seq<Component>, refs: map<string, string>, ghost listed: seq<string>)
    returns (moreComponents: seq<Component>, moreRefs: map<string, string>, ghost moreListed: seq<string>)
    requires path in packages && path !in refs
    requires Refs(components) == refs.Values && Describe(components, packages, listed)
    requires Ordering.Lists(listed, refs.Keys) && Ordering.Lists(listed + [path], refs.Keys + {path})
    ensures moreRefs == if IsInstalled(path) then refs[path := PathRef(path)] else refs
    ensures Refs(moreComponents) == moreRefs.Values
    ensures Ordering.Lists(moreListed, moreRefs.Keys) && Describe(moreComponents, packages, moreListed)
  {
    moreComponents, moreRefs, moreListed := components, refs, listed;
    if IsInstalled(path) {
      var component := PathComponent(path, packages[path]);
      AddComponent(components, component, refs, path);
      DescribeOneMore(components, packages, listed, path, component);
      moreRefs := refs[path := component.reference];
      moreComponents := components + [component];
      moreListed := listed + [path];
      assert moreRefs.Keys == refs.Keys + {path};
    }
  }

  function PathComponent(path: string, entry: PackageEntry): (c: Component)
    requires PackageName(path).Some?
    ensures c.reference == PathRef(path)
  {
    LegacyNpm.NpmComponent(PathRef(path), PackageName(path).value, entry.version, entry.integrity)
  }

  lemma AddComponent(components: seq<Component>, c: Component, refs: map<string, string>, path: string)
    requires Refs(components) == refs.Values && path !in refs
    ensures Refs(components + [c]) == refs[path := c.reference].Values
  {
    RefsAppend(components, [c]);
    assert Refs([c]) == {c.reference} by { assert c in [c]; }
    ValuesOfInsert(refs, path, c.reference);
  }

  lemma PathIsNew(paths: seq<string>, i: nat)
    requires Ordering.Ascending(paths) && i < |paths|
    ensures paths[i] !in paths[..i]
  {
    Ordering.LessIrreflexive(paths[i]);
    assert forall j :: 0 <= j < i ==> Ordering.Less(paths[j], paths[i]);
  }

  lemma ValuesOfInsert(m: map<string, string>, k: string, v: string)
    requires k !in m
    ensures m[k := v].Values == m.Values + {v}
  {
    var n := m[k := v];
    forall x | x in m.Values + {v} ensures x in n.Values {
      if x == v { assert n[k] == v; } else { var j :| j in m && m[j] == x; assert n[j] == x; }
    }
  }

  // -------------------------------------------------------------------- the edges

  function SourceRef(root: string, refs: map<string, string>, path: string): string {
    if path in refs then refs[path] else root
  }

  ghost predicate DeclaredBy(root: string, refs: map<string, string>, packages: map<string, PackageEntry>,
                             p: string, d: string, a: string, b: string) {
    && p in packages && d in packages[p].dependencies
    && a == (if p in refs then refs[p] else root) && Resolved(p, d, refs) == Some(b)
  }

  /** Some package with reference `a` (or, outside `node_modules`, the project) names a dependency that resolves to `b`. */
  ghost predicate Declared(root: string, refs: map<string, string>, packages: map<string, PackageEntry>, a: string, b: string) {
    exists p, d :: DeclaredBy(root, refs, packages, p, d, a, b)
  }

  lemma {:induction false} ResolvedIsKnown(path: string, d: string, refs: map<string, string>)
    ensures Resolved(path, d, refs).Some? ==> Resolved(path, d, refs).value in refs.Values
    decreases |path|
  {
    if Candidate(path, d) !in refs && path != "" { ResolvedIsKnown(ParentPath(path), d, refs); }
  }

  /** Adds the edges of one package. */
  method AddPackageEdges(root: string, refs: map<string, string>, path: string, dependencies: set<string>, edges: Edges<string>)
    returns (r: Edges<string>)
    requires SourceRef(root, refs, path) in edges
    ensures r.Keys == edges.Keys
    ensures forall a, b :: Edge(r, a, b) <==>
              Edge(edges, a, b) || exists d :: d in dependencies && a == SourceRef(root, refs, path) && Resolved(path, d, refs) == Some(b)
  {
    r := edges;
    var source := SourceRef(root, refs, path);
    var rest := dependencies;
    while rest != {}
      invariant rest <= dependencies && r.Keys == edges.Keys
      invariant forall a, b :: Edge(r, a, b) <==>
                  Edge(edges, a, b) || exists d :: d in dependencies - rest && a == source && Resolved(path, d, refs) == Some(b)
    {
      var d :| d in rest;
      var target := ResolveDependency(path, d, refs);
      ghost var before := r;
      if target.Some? {
        r := r[source := r[source] + {target.value}];
      }
      assert dependencies - (rest - {d}) == (dependencies - rest) + {d};
      assert forall a, b :: Edge(r, a, b) <==> Edge(before, a, b) || (a == source && target == Some(b));
      rest := rest - {d};
    }
  }

  method AddDeclaredEdges(root: string, refs: map<string, string>, packages: map<string, PackageEntry>, edges: Edges<string>)
    returns (r: Edges<string>)
    requires edges.Keys == refs.Values + {root} && forall k :: k in edges ==> edges[k] == {}
    ensures r.Keys == edges.Keys
    ensures forall a, b :: Edge(r, a, b) <==> Declared(root, refs, packages, a, b)
  {
    r := edges;
    var rest := packages.Keys;
    while rest != {}
      invariant rest <= packages.Keys && r.Keys == edges.Keys
      invariant forall a, b :: Edge(r, a, b) <==> exists p, d :: p !in rest && DeclaredBy(root, refs, packages, p, d, a, b)
    {
      var p :| p in rest;
      assert SourceRef(root, refs, p) in edges;
      ghost var before := r;
      r := AddPackageEdges(root, refs, p, packages[p].dependencies, r);
      forall a, b ensures Edge(r, a, b) <==> exists q, d :: q !in rest - {p} && DeclaredBy(root, refs, packages, q, d, a, b) {
        if d :| d in packages[p].dependencies && a == SourceRef(root, refs, p) && Resolved(p, d, refs) == Some(b) {
          assert DeclaredBy(root, refs, packages, p, d, a, b);
        }
      }
      rest := rest - {p};
    }
  }

  ghost predicate HasDeclaredEdges(root: string, refs: map<string, string>, packages: map<string, PackageEntry>, edges: Edges<string>) {
    && edges.Keys == refs.Values + {root}
    && forall a, b :: Edge(edges, a, b) <==> Declared(root, refs, packages, a, b)
  }

  /** The loader's graph: the declared edges, and the fallback when the project itself declares none. */
  ghost predicate ConnectedFrom(root: string, refs: map<string, string>, packages: map<string, PackageEntry>, edges: Edges<string>) {
    exists declared: Edges<string> ::
      && HasDeclaredEdges(root, refs, packages, declared)
      && edges == if declared[root] == {} then declared[root := Unreferenced(declared, refs.Values)] else declared
  }

  method ConnectPackages(root: string, refs: map<string, string>, packages: map<string, PackageEntry>, components: seq<Component>)
    returns (edges: Edges<string>)
    requires Refs(components) == refs.Values
    ensures ConnectedFrom(root, refs, packages, edges)
    ensures ClosedGraph(root, components, edges)
  {
    edges := DefaultDependencyMap(root, components);
    edges := AddDeclaredEdges(root, refs, packages, edges);
    assert HasDeclaredEdges(root, refs, packages, edges);
    DeclaredIsClosed(root, refs, packages, components, edges);
    if edges[root] == {} {
      var roots := CollectRootDependencies(edges, components);
      assert edges[root] + roots == roots;
      edges := edges[root := edges[root] + roots];
    }
  }

  /** Loads the lockfile: one component per installed path in path order, and their closed graph. */
  method LoadPackageLock(root: string, packages: map<string, PackageEntry>)
    returns (components: seq<Component>, edges: Edges<string>, ghost listed: seq<string>)
    ensures Ordering.Ascending(listed)
    ensures forall p :: p in listed <==> p in packages && p != "" && Contains(p, "node_modules/") && PackageName(p).Some?
    ensures |components| == |listed| && forall i :: 0 <= i < |listed| ==> IsComponentAt(components[i], listed[i], packages)
    ensures ConnectedFrom(root, map p | p in listed :: "npm:path:" + Sanitize(p), packages, edges)
    ensures ClosedGraph(root, components, edges)
  {
    var refs;
    components, refs, listed := CollectComponents(packages);
    edges := ConnectPackages(root, refs, packages, components);
    ListedRefs(packages, refs, listed);
    DescribedAt(components, packages, listed);
  }

  /** The component of the package installed at this path. */
  ghost predicate IsComponentAt(c: Component, path: string, packages: map<string, PackageEntry>) {
    && path in packages && PackageName(path).Some?
    && c.reference == "npm:path:" + Sanitize(path)
    && c.integrity == packages[path].integrity
    && var (namespace, name) := LegacyNpm.SplitNpmName(PackageName(path).value);
       c.coordinate == Coordinate(Npm, name, packages[path].version, namespace)
  }

  lemma DescribedAt(components: seq<Component>, packages: map<string, PackageEntry>, listed: seq<string>)
    requires Describe(components, packages, listed)
    ensures forall i :: 0 <= i < |listed| ==> IsComponentAt(components[i], listed[i], packages)
  {
    forall i | 0 <= i < |listed| ensures IsComponentAt(components[i], listed[i], packages) {
      ComponentAt(listed[i], packages);
    }
  }

  lemma ComponentAt(path: string, packages: map<string, PackageEntry>)
    requires path in packages && PackageName(path).Some?
    ensures IsComponentAt(PathComponent(path, packages[path]), path, packages)
  {
  }

  lemma ListedRefs(packages: map<string, PackageEntry>, refs: map<string, string>, listed: seq<string>)
    requires refs == PathRefs(packages) && Ordering.Lists(listed, refs.Keys)
    ensures refs == map p | p in listed :: "npm:path:" + Sanitize(p)
    ensures forall p :: p in listed <==> p in packages && p != "" && Contains(p, "node_modules/") && PackageName(p).Some?
  {
    forall p ensures p in listed <==> p in packages && p != "" && Contains(p, "node_modules/") && PackageName(p).Some? {
      assert p in listed <==> p in refs.Keys;
    }
  }

  lemma DeclaredIsClosed(root: string, refs: map<string, string>, packages: map<string, PackageEntry>,
                         components: seq<Component>, declared: Edges<string>)
    requires Refs(components) == refs.Values && HasDeclaredEdges(root, refs, packages, declared)
    ensures ClosedGraph(root, components, declared)
  {
    forall a, b | a in declared && b in declared[a] ensures b in refs.Values {
      assert Edge(declared, a, b);
      var p, d :| DeclaredBy(root, refs, packages, p, d, a, b);
      ResolvedIsKnown(p, d, refs);
    }
  }

  // -------------------------------------------------------- paths sharing a reference

  lemma PathsCollide(a: string, b: string)
    ensures PathRef(a) == PathRef(b) <==> Respelled(a, b)
  {
    assert PathRef(a)[9..] == Sanitize(a) && PathRef(b)[9..] == Sanitize(b);
    CollideIffRespelled(a, b);
  }

  /** No two components share a reference iff no installed path is a respelling of another. */
  lemma ReferencesDistinct(components: seq<Component>, packages: map<string, PackageEntry>, listed: seq<string>)
    requires Describe(components, packages, listed)
    ensures (forall i, j :: 0 <= i < j < |components| ==> components[i].reference != components[j].reference)
       <==> forall i, j :: 0 <= i < j < |listed| ==> !Respelled(listed[i], listed[j])
  {
    forall i, j | 0 <= i < j < |listed|
      ensures components[i].reference == components[j].reference <==> Respelled(listed[i], listed[j])
    {
      PathsCollide(listed[i], listed[j]);
    }
  }

  // ------------------------------------------------------------- names at the end of paths

  /** A package name that does not look like a path of its own. */
  predicate IsPackageName(n: string) {
    && n != "" && !IsWhitespace(n[0]) && !IsWhitespace(n[|n| - 1]) && n[0] != '/' && n[|n| - 1] != '/'
    && !("node_modules/" <= n) && !Contains(n, SEP)
  }

  lemma TrimsToName(n: string)
    requires IsPackageName(n)
    ensures Trim(TrimStartText(n, "node_modules/")) == n
    ensures Trim(TrimStartText("node_modules/" + n, "node_modules/")) == n
  {
    TrimNothing(n);
    var prefix := "node_modules/";
    assert (prefix + n)[..|prefix|] == prefix && (prefix + n)[|prefix|..] == n;
  }

  lemma OverlapInName(base: string, n: string)
    requires OccursAt(base + SEP + n, SEP, |base| + 13)
    ensures "node_modules/" <= n
  {
    var path := base + SEP + n;
    assert path[|base| + 14..] == n;
    assert path[|base| + 13..|base| + 27][1..] == n[..13];
    assert SEP[1..] == "node_modules/";
  }

  lemma OccursInName(front: string, n: string, k: nat)
    requires k >= |front| && OccursAt(front + n, SEP, k)
    ensures Contains(n, SEP)
  {
    assert (front + n)[k..k + 14] == n[k - |front|..k - |front| + 14];
    assert OccursAt(n, SEP, k - |front|);
  }

  /** No separator starts behind the one in front of the name. */
  lemma LastSeparator(base: string, n: string)
    requires IsPackageName(n)
    ensures var path := base + SEP + n; LastText(path, SEP, |path|) == Some(|base|)
  {
    var path := base + SEP + n;
    assert OccursAt(path, SEP, |base|) by { assert path[|base|..|base| + 14] == SEP; }
    forall k | |base| < k < |path| ensures !OccursAt(path, SEP, k) {
      if OccursAt(path, SEP, k) {
        if k < |base| + 14 {
          OccurrencesOverlap(path, |base|, k);
          OverlapInName(base, n);
        } else {
          OccursInName(base + SEP, n, k);
        }
      }
    }
  }

  lemma StartsInPrefix(n: string, k: nat)
    requires k < 13 && OccursAt("node_modules/" + n, SEP, k)
    ensures k == 12 && "node_modules/" <= n
  {
    var path := "node_modules/" + n;
    assert path[k] == path[k..k + 14][0] == '/' && path[k] == "node_modules/"[k];
    assert k == 12;
    assert path[13..] == n && path[12..26][1..] == n[..13] && SEP[1..] == "node_modules/";
  }

  lemma NoSeparator(n: string)
    requires IsPackageName(n)
    ensures LastText("node_modules/" + n, SEP, |"node_modules/" + n|) == None
  {
    var path := "node_modules/" + n;
    forall k | 0 <= k < |path| ensures !OccursAt(path, SEP, k) {
      if OccursAt(path, SEP, k) {
        if k < 13 { StartsInPrefix(n, k); } else { OccursInName("node_modules/", n, k); }
      }
    }
  }

  lemma SlashFirst(path: string)
    requires path != "" && path[0] == '/'
    ensures PackageName(path) == PackageName(path[1..])
  {
  }

  lemma TopName(n: string)
    requires IsPackageName(n)
    ensures PackageName("node_modules/" + n) == Some(n)
  {
    var path := "node_modules/" + n;
    assert path[0] == 'n' && path[|path| - 1] == n[|n| - 1];
    assert TrimMatches(path, Is('/')) == path;
    NoSeparator(n);
    TrimsToName(n);
  }

  lemma NestedName(base: string, n: string)
    requires IsPackageName(n) && base != "" && base[0] != '/'
    ensures PackageName(base + SEP + n) == Some(n)
  {
    var path := base + SEP + n;
    assert path[0] == base[0] && path[|path| - 1] == n[|n| - 1];
    assert TrimMatches(path, Is('/')) == path;
    LastSeparator(base, n);
    assert path[|base| + |SEP|..] == n;
    TrimsToName(n);
  }

  /** A package installed as `n` below any directory, or at the top, is called `n`. */
  lemma InstalledName(base: string, n: string)
    requires IsPackageName(n)
    ensures PackageName(base + "/node_modules/" + n) == Some(n) && PackageName("node_modules/" + n) == Some(n)
  {
    TopName(n);
    NestedOrTop(base, n);
  }

  lemma {:induction false} NestedOrTop(base: string, n: string)
    requires IsPackageName(n)
    ensures PackageName(base + SEP + n) == Some(n)
    decreases |base|
  {
    var path := base + SEP + n;
    if base == "" {
      TopName(n);
      assert path[1..] == "node_modules/" + n;
      SlashFirst(path);
    } else if base[0] == '/' {
      assert path[1..] == base[1..] + SEP + n;
      SlashFirst(path);
      NestedOrTop(base[1..], n);
    } else {
      NestedName(base, n);
    }
  }
}
