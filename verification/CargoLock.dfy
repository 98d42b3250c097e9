/** Loading `Cargo.lock`: the project's own package becomes the root, the others components. */
module CargoLock {
  import opened Wrappers
  import opened Coordinates
  import opened Graph
  import opened References
  import opened Sbom
  import opened CargoIndex
  import opened Connect

  datatype LockPackage = LockPackage(
    name: string, version: string, source: Option<string>, checksum: Option<string>, dependencies: seq<string>)

  datatype Manifest = Manifest(name: string, version: Option<string>)

  // ----------------------------------------------------------- the root package

  /** A local package with the manifest's name, and its version if that is stated. */
  predicate IsRootCandidate(m: Manifest, p: LockPackage) {
    m.name == p.name && (m.version.Some? ==> m.version.value == p.version) && p.source.None?
  }

  /** The root is the only candidate; with none or several the project has no package of its own. */
  method RootIndex(m: Manifest, packages: seq<LockPackage>) returns (r: Option<nat>)
    ensures r.Some? ==> r.value < |packages|
    ensures forall i :: 0 <= i < |packages| ==>
              (r == Some(i) <==> IsRootCandidate(m, packages[i])
                                 && forall j :: 0 <= j < |packages| && IsRootCandidate(m, packages[j]) ==> j == i)
    ensures r.Some? ==>
              var p := packages[r.value];
              p.name == m.name && p.source == None && (m.version == None || m.version == Some(p.version))
    ensures r.None? ==> forall i :: 0 <= i < |packages| && packages[i].name == m.name && packages[i].source == None
                                    && (m.version == None || m.version == Some(packages[i].version)) ==>
              exists j :: 0 <= j < |packages| && j != i && packages[j].name == m.name && packages[j].source == None
                          && (m.version == None || m.version == Some(packages[j].version))
  {
    var matching: seq<nat> := [];
    for i := 0 to |packages|
      invariant forall k :: 0 <= k < |matching| ==> matching[k] < i && IsRootCandidate(m, packages[matching[k]])
      invariant forall j :: 0 <= j < i && IsRootCandidate(m, packages[j]) ==> j in matching
      invariant forall k, l :: 0 <= k < l < |matching| ==> matching[k] < matching[l]
    {
      if IsRootCandidate(m, packages[i]) {
        matching := matching + [i];
      }
    }
    if |matching| == 1 { return Some(matching[0]); }
    if |matching| > 1 {
      assert matching[0] < matching[1];
    }
    return None;
  }

  // ------------------------------------------------------------- the components

  /** Every component reference starts like this; the root's is a package URL or `aegiscudo-root:...`. */
  const PREFIX := "cargo:pkg:"

  /** `uuid` is the name-based UUID of a source URL. */
  function CargoRef(uuid: string -> string, name: string, version: string, source: Option<string>): string {
    PREFIX + Sanitize(name) + ":" + Sanitize(version)
    + if source.Some? then ":src-" + uuid(source.value) else ""
  }

  function Entry(uuid: string -> string, p: LockPackage): Package {
    Package(p.name, p.version, p.source, CargoRef(uuid, p.name, p.version, p.source))
  }

  function Entries(uuid: string -> string, packages: seq<LockPackage>): seq<Package> {
    seq(|packages|, i requires 0 <= i < |packages| => Entry(uuid, packages[i]))
  }

  function Without<T>(s: seq<T>, i: Option<nat>): seq<T> {
    if i.Some? && i.value < |s| then s[..i.value] + s[i.value + 1..] else s
  }

  lemma EntriesReferenced(uuid: string -> string, packages: seq<LockPackage>)
    ensures Referenced(Entries(uuid, packages))
  {
    var es := Entries(uuid, packages);
    forall p | p in es ensures p.reference == CargoRef(uuid, p.name, p.version, p.source) {
      var i :| 0 <= i < |packages| && es[i] == p;
    }
  }

  function RefOf(e: Package): string {
    e.reference
  }

  lemma RootIsNoComponent(uuid: string -> string, root: string, packages: seq<LockPackage>)
    requires !(PREFIX <= root)
    ensures root !in EntryRefs(Entries(uuid, packages), RefOf)
  {
    var es := Entries(uuid, packages);
    forall e | e in es ensures PREFIX <= e.reference {
      var i :| 0 <= i < |packages| && es[i] == e;
      assert e.reference[..|PREFIX|] == PREFIX;
    }
  }

  /** `integrityOf` reads a checksum; an unreadable one is dropped. */
  function CargoComponent(integrityOf: string -> Option<string>, p: LockPackage, e: Package): Component {
    Component(e.reference, Coordinate(Cargo, p.name, Some(p.version), None),
              if p.checksum.Some? then integrityOf(p.checksum.value) else None)
  }

  /** One component per package, in lockfile order. */
  ghost predicate Describe(integrityOf: string -> Option<string>, components: seq<Component>,
                           packages: seq<LockPackage>, es: seq<Package>) {
    && |components| == |packages| == |es|
    && forall i :: 0 <= i < |components| ==> components[i] == CargoComponent(integrityOf, packages[i], es[i])
  }

  method Components(integrityOf: string -> Option<string>, packages: seq<LockPackage>, es: seq<Package>)
    returns (components: seq<Component>)
    requires |es| == |packages|
    ensures Describe(integrityOf, components, packages, es)
    ensures Refs(components) == EntryRefs(es, RefOf)
  {
    components := [];
    for i := 0 to |packages|
      invariant Describe(integrityOf, components, packages[..i], es[..i])
    {
      components := components + [CargoComponent(integrityOf, packages[i], es[i])];
    }
    assert es[..|es|] == es && packages[..|packages|] == packages;
    DescribedRefs(components, es, RefOf);
  }

  // -------------------------------------------------------------------- the edges

  function ResolveText(ix: Indexes, dependency: string): seq<string> {
    match ParseSpec(dependency)
    case None => []
    case Some(spec) => ResolveSpec(ix, spec)
  }

  function Resolver(ix: Indexes): Resolver {
    dependency => ResolveText(ix, dependency)
  }

  lemma ResolvedIsPackage(es: seq<Package>, ix: Indexes, spec: Spec, b: string)
    requires Indexed(es, ix) && b in ResolveSpec(ix, spec)
    ensures b in EntryRefs(es, RefOf)
  {
    if spec.version.None? {
      ScanMembers(es, CargoIndex.Named(spec.name), b);
    } else if spec.source.None? {
      ScanMembers(es, Versioned(spec.name, spec.version.value), b);
    } else {
      ExactFinds(es, Key(spec.name, spec.version.value, spec.source));
    }
  }

  /** The dependency strings of the last package with each reference. */
  function DependenciesOf(packages: seq<LockPackage>, es: seq<Package>): map<string, seq<string>>
    requires |packages| == |es|
  {
    if es == [] then map[]
    else
      var n := |es| - 1;
      DependenciesOf(packages[..n], es[..n])[es[n].reference := packages[n].dependencies]
  }

  lemma {:induction false} DependenciesKeys(packages: seq<LockPackage>, es: seq<Package>)
    requires |packages| == |es|
    ensures DependenciesOf(packages, es).Keys == EntryRefs(es, RefOf)
  {
    if es != [] {
      var n := |es| - 1;
      DependenciesKeys(packages[..n], es[..n]);
      EntryRefsStep(es, n, RefOf);
      assert es[..n + 1] == es;
    }
  }

  // ---------------------------------------------------- packages sharing a reference

  lemma {:induction false} LastDependencies(packages: seq<LockPackage>, es: seq<Package>, i: nat)
    requires |packages| == |es| && i < |es| && forall j :: i < j < |es| ==> es[j].reference != es[i].reference
    ensures es[i].reference in DependenciesOf(packages, es)
    ensures DependenciesOf(packages, es)[es[i].reference] == packages[i].dependencies
    decreases |es|
  {
    var n := |es| - 1;
    if i < n { LastDependencies(packages[..n], es[..n], i); }
  }

  lemma {:induction false} LastSharing(es: seq<Package>, i: nat) returns (k: nat)
    requires i < |es|
    ensures i <= k < |es| && es[k].reference == es[i].reference
    ensures forall j :: k < j < |es| ==> es[j].reference != es[i].reference
    decreases |es|
  {
    var n := |es| - 1;
    if es[n].reference == es[i].reference {
      k := n;
    } else {
      k := LastSharing(es[..n], i);
    }
  }

  ghost predicate UsesOwn(m: map<string, seq<string>>, packages: seq<LockPackage>, es: seq<Package>, i: nat)
    requires i < |packages| == |es|
  {
    es[i].reference in m && m[es[i].reference] == packages[i].dependencies
  }

  ghost predicate SharersAgree(packages: seq<LockPackage>, es: seq<Package>)
    requires |packages| == |es|
  {
    forall i, j :: 0 <= i < |es| && 0 <= j < |es| && es[i].reference == es[j].reference ==>
                     packages[i].dependencies == packages[j].dependencies
  }

  lemma SharersUseOwn(packages: seq<LockPackage>, es: seq<Package>, i: nat)
    requires i < |packages| == |es| && SharersAgree(packages, es)
    ensures UsesOwn(DependenciesOf(packages, es), packages, es, i)
  {
    var k := LastSharing(es, i);
    LastDependencies(packages, es, k);
  }

  /** The loader uses every package's own dependencies iff packages sharing a reference have the same. */
  lemma DependenciesKept(packages: seq<LockPackage>, es: seq<Package>, m: map<string, seq<string>>)
    requires |packages| == |es| && m == DependenciesOf(packages, es)
    ensures (forall i :: 0 <= i < |es| ==> UsesOwn(m, packages, es, i)) <==> SharersAgree(packages, es)
  {
    if SharersAgree(packages, es) {
      forall i | 0 <= i < |es| ensures UsesOwn(m, packages, es, i) { SharersUseOwn(packages, es, i); }
    }
    if forall i :: 0 <= i < |es| ==> UsesOwn(m, packages, es, i) {
      forall i, j | 0 <= i < |es| && 0 <= j < |es| && es[i].reference == es[j].reference
        ensures packages[i].dependencies == packages[j].dependencies
      {
        assert UsesOwn(m, packages, es, i) && UsesOwn(m, packages, es, j);
      }
    }
  }

  /** Build metadata and a pre-release of the same text share a reference. */
  lemma BuildMetadataShares(uuid: string -> string, name: string, version: string, tag: string, source: Option<string>)
    requires version != "" && IsPlain(version[|version| - 1]) && tag != "" && IsPlain(tag[0])
    ensures CargoRef(uuid, name, version + "+" + tag, source) == CargoRef(uuid, name, version + "-" + tag, source)
  {
    SanitizeMark(version, '+', tag, false);
    SanitizeMark(version, '-', tag, false);
    SanitizeFlag(tag, true, false);
    assert version + "+" + tag == version + ['+'] + tag && version + "-" + tag == version + ['-'] + tag;
  }

  // ----------------------------------------------- the graph, package by package

  /** The package at `i` is not the project's own. */
  predicate IsOther(packages: seq<LockPackage>, rootIndex: Option<nat>, i: nat) {
    i < |packages| && rootIndex != Some(i)
  }

  function RefText(uuid: string -> string, p: LockPackage): string {
    "cargo:pkg:" + Sanitize(p.name) + ":" + Sanitize(p.version)
    + if p.source.Some? then ":src-" + uuid(p.source.value) else ""
  }

  function SourceText(uuid: string -> string, source: Option<string>): string {
    if source.Some? then ":src-" + uuid(source.value) else ""
  }

  lemma SameSource(uuid: string -> string, a: Option<string>, b: Option<string>)
    ensures SourceText(uuid, a) == SourceText(uuid, b)
       <==> (a.Some? <==> b.Some?) && (a.Some? && b.Some? ==> uuid(a.value) == uuid(b.value))
  {
    if a.Some? && b.Some? {
      assert SourceText(uuid, a)[5..] == uuid(a.value) && SourceText(uuid, b)[5..] == uuid(b.value);
    }
  }

  /** Two parts without colons and a rest that starts with one are told apart by the text they form. */
  lemma PartsApart(v: string, s: string, v': string, s': string)
    requires ':' !in v && ':' !in v' && (s == "" || s[0] == ':') && (s' == "" || s'[0] == ':')
    ensures v + s == v' + s' <==> v == v' && s == s'
  {
    if v + s == v' + s' {
      var t := v + s;
      assert |v| < |t| ==> t[|v|] == ':';
      assert |v'| < |t| ==> t[|v'|] == ':';
      assert forall k :: 0 <= k < |v| ==> t[k] == v[k];
      assert forall k :: 0 <= k < |v'| ==> t[k] == v'[k];
      assert |v| == |v'|;
      assert v == t[..|v|] && v' == t[..|v|] && s == t[|v|..] && s' == t[|v|..];
    }
  }

  lemma RefShape(uuid: string -> string, p: LockPackage)
    ensures RefText(uuid, p)
         == "cargo:pkg:" + (Sanitize(p.name) + ([':'] + (Sanitize(p.version) + SourceText(uuid, p.source))))
  {
  }

  /** Packages share a reference iff names and versions are respellings and the sources have the same identifier. */
  lemma ReferencesCollide(uuid: string -> string, p: LockPackage, q: LockPackage)
    ensures RefText(uuid, p) == RefText(uuid, q) <==>
              && Respelled(p.name, q.name) && Respelled(p.version, q.version)
              && (p.source.Some? <==> q.source.Some?)
              && (p.source.Some? && q.source.Some? ==> uuid(p.source.value) == uuid(q.source.value))
  {
    var n, v, s := Sanitize(p.name), Sanitize(p.version), SourceText(uuid, p.source);
    var n', v', s' := Sanitize(q.name), Sanitize(q.version), SourceText(uuid, q.source);
    SanitizedHasNoColon(p.name);
    SanitizedHasNoColon(q.name);
    SanitizedHasNoColon(p.version);
    SanitizedHasNoColon(q.version);
    RefShape(uuid, p);
    RefShape(uuid, q);
    BehindPrefix("cargo:pkg:", n + ([':'] + (v + s)), n' + ([':'] + (v' + s')));
    PartsApart(n, [':'] + (v + s), n', [':'] + (v' + s'));
    BehindPrefix([':'], v + s, v' + s');
    PartsApart(v, s, v', s');
    CollideIffRespelled(p.name, q.name);
    CollideIffRespelled(p.version, q.version);
    SameSource(uuid, p.source, q.source);
  }

  lemma BehindPrefix(prefix: string, a: string, b: string)
    ensures prefix + a == prefix + b <==> a == b
  {
    assert (prefix + a)[|prefix|..] == a && (prefix + b)[|prefix|..] == b;
  }

  ghost predicate IsComponentOf(uuid: string -> string, integrityOf: string -> Option<string>, c: Component, p: LockPackage) {
    && c.reference == RefText(uuid, p)
    && c.coordinate == Coordinate(Cargo, p.name, Some(p.version), None)
    && c.integrity == match p.checksum case None => None case Some(checksum) => integrityOf(checksum)
  }

  /** The last package with this reference. */
  ghost predicate IsLast(uuid: string -> string, packages: seq<LockPackage>, rootIndex: Option<nat>, i: nat, a: string) {
    && IsOther(packages, rootIndex, i) && RefText(uuid, packages[i]) == a
    && forall j :: i < j < |packages| && IsOther(packages, rootIndex, j) ==> RefText(uuid, packages[j]) != a
  }

  /** One of the dependency strings resolves to `b`. */
  ghost predicate Leads(ix: Indexes, dependencies: seq<string>, b: string) {
    exists d, spec :: d in dependencies && ParseSpec(d) == Some(spec) && b in ResolveSpec(ix, spec)
  }

  /** The last package with reference `a` depends on what has reference `b`. */
  ghost predicate Links(uuid: string -> string, packages: seq<LockPackage>, rootIndex: Option<nat>, ix: Indexes, a: string, b: string) {
    exists i: nat :: IsLast(uuid, packages, rootIndex, i, a) && Leads(ix, packages[i].dependencies, b)
  }

  ghost predicate RootLeads(packages: seq<LockPackage>, rootIndex: Option<nat>, ix: Indexes, b: string)
    requires rootIndex.Some? ==> rootIndex.value < |packages|
  {
    rootIndex.Some? && Leads(ix, packages[rootIndex.value].dependencies, b)
  }

  /** For every unambiguous dependency, resolution finds exactly the packages it means. */
  ghost predicate Resolves(uuid: string -> string, packages: seq<LockPackage>, rootIndex: Option<nat>, ix: Indexes) {
    forall spec, b :: IsUnambiguous(spec) ==>
      (b in ResolveSpec(ix, spec) <==> exists i: nat :: Means(packages, rootIndex, spec, i) && b == RefText(uuid, packages[i]))
  }

  ghost predicate Means(packages: seq<LockPackage>, rootIndex: Option<nat>, spec: Spec, i: nat) {
    && IsOther(packages, rootIndex, i) && packages[i].name == spec.name
    && (spec.version.Some? ==> packages[i].version == spec.version.value)
    && (spec.version.Some? && spec.source.Some? ==> packages[i].source == spec.source)
  }

  /** Position in the lockfile of the `k`-th package that is not the project's own. */
  function At(rootIndex: Option<nat>, k: nat): nat {
    if rootIndex.Some? && k >= rootIndex.value then k + 1 else k
  }

  lemma OthersAt(packages: seq<LockPackage>, rootIndex: Option<nat>, others: seq<LockPackage>)
    requires (rootIndex.Some? ==> rootIndex.value < |packages|) && others == Without(packages, rootIndex)
    ensures |others| + (if rootIndex.Some? then 1 else 0) == |packages|
    ensures forall k :: 0 <= k < |others| ==> IsOther(packages, rootIndex, At(rootIndex, k)) && others[k] == packages[At(rootIndex, k)]
    ensures forall i :: 0 <= i < |packages| && IsOther(packages, rootIndex, i) ==>
              exists k :: 0 <= k < |others| && At(rootIndex, k) == i
  {
    forall i | 0 <= i < |packages| && IsOther(packages, rootIndex, i) ensures exists k :: 0 <= k < |others| && At(rootIndex, k) == i {
      var k := if rootIndex.Some? && i > rootIndex.value then i - 1 else i;
      assert At(rootIndex, k) == i;
    }
  }

  lemma EntryText(uuid: string -> string, p: LockPackage)
    ensures Entry(uuid, p).reference == RefText(uuid, p)
  {
  }

  lemma LeadsWants(ix: Indexes, dependencies: seq<string>, b: string)
    ensures Wants(Resolver(ix), dependencies, b) <==> Leads(ix, dependencies, b)
  {
    if Wants(Resolver(ix), dependencies, b) {
      var i :| 0 <= i < |dependencies| && b in Resolver(ix)(dependencies[i]);
      assert dependencies[i] in dependencies && ParseSpec(dependencies[i]).Some?;
      assert b in ResolveSpec(ix, ParseSpec(dependencies[i]).value);
    }
    if d, spec :| d in dependencies && ParseSpec(d) == Some(spec) && b in ResolveSpec(ix, spec) {
      var i :| 0 <= i < |dependencies| && dependencies[i] == d;
      assert b in Resolver(ix)(dependencies[i]);
    }
  }

  /** The dependencies the loader keeps for a reference are those of the last package with it. */
  lemma KeptAreLast(uuid: string -> string, packages: seq<LockPackage>, rootIndex: Option<nat>, i: nat, a: string)
    requires (rootIndex.Some? ==> rootIndex.value < |packages|) && IsLast(uuid, packages, rootIndex, i, a)
    ensures var others := Without(packages, rootIndex);
            var deps := DependenciesOf(others, Entries(uuid, others));
            a in deps && deps[a] == packages[i].dependencies
  {
    var others := Without(packages, rootIndex);
    var es := Entries(uuid, others);
    OthersAt(packages, rootIndex, others);
    var k :| 0 <= k < |others| && At(rootIndex, k) == i;
    EntryText(uuid, others[k]);
    forall j | k < j < |es| ensures es[j].reference != a {
      EntryText(uuid, others[j]);
      assert At(rootIndex, j) > i;
    }
    LastDependencies(others, es, k);
  }

  lemma LastIsLast(uuid: string -> string, packages: seq<LockPackage>, rootIndex: Option<nat>,
                   others: seq<LockPackage>, k: nat, a: string)
    requires (rootIndex.Some? ==> rootIndex.value < |packages|) && others == Without(packages, rootIndex)
    requires k < |others| && RefText(uuid, others[k]) == a
    requires forall l :: k < l < |others| ==> RefText(uuid, others[l]) != a
    ensures IsLast(uuid, packages, rootIndex, At(rootIndex, k), a)
  {
    OthersAt(packages, rootIndex, others);
    forall j | At(rootIndex, k) < j < |packages| && IsOther(packages, rootIndex, j) ensures RefText(uuid, packages[j]) != a {
      var l :| 0 <= l < |others| && At(rootIndex, l) == j;
    }
  }

  lemma LastExists(uuid: string -> string, packages: seq<LockPackage>, rootIndex: Option<nat>, a: string) returns (i: nat)
    requires rootIndex.Some? ==> rootIndex.value < |packages|
    requires a in EntryRefs(Entries(uuid, Without(packages, rootIndex)), RefOf)
    ensures IsLast(uuid, packages, rootIndex, i, a)
  {
    var others := Without(packages, rootIndex);
    var es := Entries(uuid, others);
    var e :| e in es && RefOf(e) == a;
    var k0 :| 0 <= k0 < |es| && es[k0] == e;
    var k := LastSharing(es, k0);
    forall l | 0 <= l < |others| ensures es[l].reference == RefText(uuid, others[l]) { EntryText(uuid, others[l]); }
    LastIsLast(uuid, packages, rootIndex, others, k, a);
    i := At(rootIndex, k);
  }

  lemma KeptIsLink(uuid: string -> string, packages: seq<LockPackage>, rootIndex: Option<nat>, ix: Indexes,
                   deps: map<string, seq<string>>, a: string, b: string)
    requires (rootIndex.Some? ==> rootIndex.value < |packages|)
    requires var others := Without(packages, rootIndex); deps == DependenciesOf(others, Entries(uuid, others))
    ensures (a in deps && Wants(Resolver(ix), deps[a], b)) <==> Links(uuid, packages, rootIndex, ix, a, b)
  {
    var others := Without(packages, rootIndex);
    DependenciesKeys(others, Entries(uuid, others));
    if a in deps {
      var i := LastExists(uuid, packages, rootIndex, a);
      KeptAreLast(uuid, packages, rootIndex, i, a);
      LeadsWants(ix, deps[a], b);
    }
    if i: nat :| IsLast(uuid, packages, rootIndex, i, a) && Leads(ix, packages[i].dependencies, b) {
      KeptAreLast(uuid, packages, rootIndex, i, a);
      LeadsWants(ix, deps[a], b);
    }
  }

  lemma MatchMeans(uuid: string -> string, packages: seq<LockPackage>, rootIndex: Option<nat>, others: seq<LockPackage>,
                   spec: Spec, k: nat)
    requires (rootIndex.Some? ==> rootIndex.value < |packages|) && others == Without(packages, rootIndex) && k < |others|
    ensures Matches(spec)(Entry(uuid, others[k])) <==> Means(packages, rootIndex, spec, At(rootIndex, k))
    ensures Entry(uuid, others[k]).reference == RefText(uuid, packages[At(rootIndex, k)])
  {
    OthersAt(packages, rootIndex, others);
    EntryText(uuid, others[k]);
  }

  lemma MeansMatches(uuid: string -> string, packages: seq<LockPackage>, rootIndex: Option<nat>, spec: Spec, b: string)
    requires rootIndex.Some? ==> rootIndex.value < |packages|
    ensures b in Scan(Entries(uuid, Without(packages, rootIndex)), Matches(spec))
       <==> exists i: nat :: Means(packages, rootIndex, spec, i) && b == RefText(uuid, packages[i])
  {
    var others := Without(packages, rootIndex);
    var es := Entries(uuid, others);
    ScanMembers(es, Matches(spec), b);
    if q :| q in es && Matches(spec)(q) && q.reference == b {
      var k :| 0 <= k < |es| && es[k] == q;
      MatchMeans(uuid, packages, rootIndex, others, spec, k);
    }
    if i: nat :| Means(packages, rootIndex, spec, i) && b == RefText(uuid, packages[i]) {
      OthersAt(packages, rootIndex, others);
      var k :| 0 <= k < |others| && At(rootIndex, k) == i;
      MatchMeans(uuid, packages, rootIndex, others, spec, k);
      assert es[k] in es;
    }
  }

  lemma IndexesResolve(uuid: string -> string, packages: seq<LockPackage>, rootIndex: Option<nat>, ix: Indexes)
    requires rootIndex.Some? ==> rootIndex.value < |packages|
    requires Indexed(Entries(uuid, Without(packages, rootIndex)), ix)
    ensures Resolves(uuid, packages, rootIndex, ix)
  {
    var es := Entries(uuid, Without(packages, rootIndex));
    EntriesReferenced(uuid, Without(packages, rootIndex));
    forall spec, b | IsUnambiguous(spec)
      ensures b in ResolveSpec(ix, spec) <==> exists i: nat :: Means(packages, rootIndex, spec, i) && b == RefText(uuid, packages[i])
    {
      ResolutionExact(spec);
      assert Agrees(es, ix, spec);
      MeansMatches(uuid, packages, rootIndex, spec, b);
    }
  }

  method BuildGraph(uuid: string -> string, integrityOf: string -> Option<string>, root: string,
                    others: seq<LockPackage>, rootDeps: seq<string>)
    returns (components: seq<Component>, edges: Edges<string>, ix: Indexes)
    requires !(PREFIX <= root)
    ensures ClosedGraph(root, components, edges)
    ensures Describe(integrityOf, components, others, Entries(uuid, others)) && Indexed(Entries(uuid, others), ix)
    ensures Connected(Resolver(ix), DependenciesOf(others, Entries(uuid, others)), root, rootDeps, edges)
    ensures root !in DependenciesOf(others, Entries(uuid, others))
    ensures Refs(components) == DependenciesOf(others, Entries(uuid, others)).Keys
  {
    var es := Entries(uuid, others);
    DependenciesKeys(others, es);
    RootIsNoComponent(uuid, root, others);
    ix := BuildIndexes(es);
    components := Components(integrityOf, others, es);
    forall d, b | b in Resolver(ix)(d) ensures b in Refs(components) {
      ResolvedIsPackage(es, ix, ParseSpec(d).value, b);
    }
    edges := ConnectGraph(Resolver(ix), DependenciesOf(others, es), root, rootDeps, components);
  }

  /** No dependency leads to `b`. */
  ghost predicate IsUnlinked(uuid: string -> string, packages: seq<LockPackage>, rootIndex: Option<nat>, ix: Indexes, b: string) {
    forall a :: !Links(uuid, packages, rootIndex, ix, a, b)
  }

  /** Loads the lockfile into a closed graph whose edges are the resolved dependency strings. */
  method LoadCargoLock(uuid: string -> string, integrityOf: string -> Option<string>,
                       root: string, packages: seq<LockPackage>, rootIndex: Option<nat>)
    returns (components: seq<Component>, edges: Edges<string>, ix: Indexes)
    requires rootIndex.Some? ==> rootIndex.value < |packages|
    requires !(PREFIX <= root)
    ensures ClosedGraph(root, components, edges)
    ensures |components| == |packages| - if rootIndex.Some? then 1 else 0
    ensures forall k :: 0 <= k < |components| ==>
              IsComponentOf(uuid, integrityOf, components[k],
                            packages[if rootIndex.Some? && k >= rootIndex.value then k + 1 else k])
    ensures Resolves(uuid, packages, rootIndex, ix)
    ensures forall a, b :: a != root ==> (Edge(edges, a, b) <==> Links(uuid, packages, rootIndex, ix, a, b))
    ensures forall b :: Edge(edges, root, b) <==>
              if exists c :: RootLeads(packages, rootIndex, ix, c) then RootLeads(packages, rootIndex, ix, b)
              else b in Refs(components) && IsUnlinked(uuid, packages, rootIndex, ix, b)
  {
    var others := Without(packages, rootIndex);
    var rootDeps := if rootIndex.Some? then packages[rootIndex.value].dependencies else [];
    components, edges, ix := BuildGraph(uuid, integrityOf, root, others, rootDeps);
    DescribedOthers(uuid, integrityOf, packages, rootIndex, components);
    IndexesResolve(uuid, packages, rootIndex, ix);
    ghost var deps := DependenciesOf(others, Entries(uuid, others));
    ComponentLinks(uuid, packages, rootIndex, ix, root, rootDeps, deps, edges);
    RootLinks(uuid, packages, rootIndex, ix, root, rootDeps, deps, edges);
  }

  lemma DescribedOthers(uuid: string -> string, integrityOf: string -> Option<string>,
                        packages: seq<LockPackage>, rootIndex: Option<nat>, components: seq<Component>)
    requires rootIndex.Some? ==> rootIndex.value < |packages|
    requires var others := Without(packages, rootIndex); Describe(integrityOf, components, others, Entries(uuid, others))
    ensures |components| == |packages| - if rootIndex.Some? then 1 else 0
    ensures forall k :: 0 <= k < |components| ==> IsComponentOf(uuid, integrityOf, components[k], packages[At(rootIndex, k)])
  {
    var others := Without(packages, rootIndex);
    OthersAt(packages, rootIndex, others);
    forall k | 0 <= k < |components| ensures IsComponentOf(uuid, integrityOf, components[k], packages[At(rootIndex, k)]) {
      EntryText(uuid, others[k]);
    }
  }

  lemma ComponentLinks(uuid: string -> string, packages: seq<LockPackage>, rootIndex: Option<nat>, ix: Indexes,
                       root: string, rootDeps: seq<string>, deps: map<string, seq<string>>, edges: Edges<string>)
    requires rootIndex.Some? ==> rootIndex.value < |packages|
    requires var others := Without(packages, rootIndex); deps == DependenciesOf(others, Entries(uuid, others))
    requires root !in deps && Connected(Resolver(ix), deps, root, rootDeps, edges)
    ensures forall a, b :: a != root ==> (Edge(edges, a, b) <==> Links(uuid, packages, rootIndex, ix, a, b))
  {
    forall a, b | a != root ensures Edge(edges, a, b) <==> Links(uuid, packages, rootIndex, ix, a, b) {
      KeptIsLink(uuid, packages, rootIndex, ix, deps, a, b);
    }
  }

  lemma RootLinks(uuid: string -> string, packages: seq<LockPackage>, rootIndex: Option<nat>, ix: Indexes,
                  root: string, rootDeps: seq<string>, deps: map<string, seq<string>>, edges: Edges<string>)
    requires rootIndex.Some? ==> rootIndex.value < |packages|
    requires rootDeps == if rootIndex.Some? then packages[rootIndex.value].dependencies else []
    requires var others := Without(packages, rootIndex); deps == DependenciesOf(others, Entries(uuid, others))
    requires root !in deps && Connected(Resolver(ix), deps, root, rootDeps, edges)
    ensures forall b :: Edge(edges, root, b) <==>
              if exists c :: RootLeads(packages, rootIndex, ix, c) then RootLeads(packages, rootIndex, ix, b)
              else b in deps && IsUnlinked(uuid, packages, rootIndex, ix, b)
  {
    forall b ensures Wants(Resolver(ix), rootDeps, b) <==> RootLeads(packages, rootIndex, ix, b) {
      LeadsWants(ix, rootDeps, b);
    }
    forall b
      ensures Edge(edges, root, b) <==>
                if exists c :: RootLeads(packages, rootIndex, ix, c) then RootLeads(packages, rootIndex, ix, b)
                else b in deps && IsUnlinked(uuid, packages, rootIndex, ix, b)
    {
      forall a ensures (a in deps && Wants(Resolver(ix), deps[a], b)) <==> Links(uuid, packages, rootIndex, ix, a, b) {
        KeptIsLink(uuid, packages, rootIndex, ix, deps, a, b);
      }
    }
  }
}
