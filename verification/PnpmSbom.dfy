/** The SBOM loader for `pnpm-lock.yaml`: package keys, snapshots and importers after YAML parsing. */
module PnpmSbom {
  import opened Wrappers
  import opened Text
  import opened Coordinates
  import opened Graph
  import opened References
  import opened Sbom
  import LegacyNpm
  import opened Connect
  import opened Ordering
  import PnpmLock

  /** An accepted package key with its cleaned and canonical forms and its component reference. */
  datatype Entry = Entry(key: string, cleaned: string, canonical: string, reference: string)

  function Clean(key: string): string {
    TrimMatches(key, Is('/'))
  }

  /** The key without its peer suffix. */
  function Canonical(key: string): string {
    Before(Clean(key), '(')
  }

  predicate IsPackage(key: string) {
    var (name, version) := PnpmLock.SplitKey(Clean(key));
    name != "" && version != ""
  }

  function EntryOf(key: string): Entry {
    Entry(key, Clean(key), Canonical(Clean(key)), "pnpm:key:" + Sanitize(Clean(key)))
  }

  // ----------------------------------------------------------------- the indexes

  datatype Indexes = Indexes(exact: map<string, string>, canonical: map<string, seq<string>>, refs: map<string, string>)

  function IndexOf(es: seq<Entry>): Indexes {
    if es == [] then Indexes(map[], map[], map[])
    else
      var ix, e := IndexOf(es[..|es| - 1]), es[|es| - 1];
      Indexes(
        ix.exact[e.cleaned := e.key],
        ix.canonical[e.canonical := (if e.canonical in ix.canonical then ix.canonical[e.canonical] else []) + [e.key]],
        ix.refs[e.key := e.reference])
  }

  function Known(refs: map<string, string>, keys: seq<string>): seq<string> {
    if keys == [] then [] else (if keys[0] in refs then [refs[keys[0]]] else []) + Known(refs, keys[1..])
  }

  /** The exact key wins; otherwise every key with the same canonical form is taken. */
  function ResolveKeys(ix: Indexes, exact: string, canonical: string): seq<string> {
    if exact in ix.exact then Known(ix.refs, [ix.exact[exact]])
    else if canonical in ix.canonical then Known(ix.refs, ix.canonical[canonical])
    else []
  }

  function ResolveText(ix: Indexes, nameAtVersion: string): seq<string> {
    ResolveKeys(ix, Clean(nameAtVersion), Canonical(nameAtVersion))
  }

  function Resolver(ix: Indexes): Resolver {
    text => ResolveText(ix, text)
  }

  /** Keys name entries, and cleaned keys determine references. */
  ghost predicate Coherent(es: seq<Entry>) {
    && (forall a, b :: a in es && b in es && a.key == b.key ==> a == b)
    && (forall a, b :: a in es && b in es && a.cleaned == b.cleaned ==> a.reference == b.reference)
  }

  /** What the indexes hold, entry by entry. */
  ghost predicate Holds(es: seq<Entry>, ix: Indexes) {
    HoldsRefs(es, ix.refs) && HoldsExact(es, ix.exact) && HoldsCanonical(es, ix.canonical)
  }

  lemma {:induction false} IndexHolds(es: seq<Entry>)
    requires Coherent(es)
    ensures Holds(es, IndexOf(es))
  {
    if es != [] {
      var front, e := es[..|es| - 1], es[|es| - 1];
      assert es == front + [e] && e in es;
      assert forall a :: a in es <==> a in front || a == e;
      IndexHolds(front);
      RefsHold(front, IndexOf(front).refs, e, es);
      ExactHolds(front, IndexOf(front).exact, e, es);
      CanonicalHolds(front, IndexOf(front).canonical, e, es);
    }
  }

  ghost predicate HoldsRefs(es: seq<Entry>, refs: map<string, string>) {
    && (forall k :: k in refs <==> exists e :: e in es && e.key == k)
    && (forall e :: e in es ==> refs[e.key] == e.reference)
  }

  ghost predicate HoldsExact(es: seq<Entry>, exact: map<string, string>) {
    && (forall c :: c in exact <==> exists e :: e in es && e.cleaned == c)
    && (forall c :: c in exact ==> exists e :: e in es && e.cleaned == c && e.key == exact[c])
  }

  ghost predicate HoldsCanonical(es: seq<Entry>, canonical: map<string, seq<string>>) {
    && (forall c :: c in canonical <==> exists e :: e in es && e.canonical == c)
    && (forall c, k :: c in canonical ==> (k in canonical[c] <==> exists e :: e in es && e.canonical == c && e.key == k))
  }

  lemma RefsHold(front: seq<Entry>, refs: map<string, string>, e: Entry, es: seq<Entry>)
    requires HoldsRefs(front, refs) && Coherent(es) && forall a :: a in es <==> a in front || a == e
    ensures HoldsRefs(es, refs[e.key := e.reference])
  {
    assert e in es;
  }

  lemma ExactHolds(front: seq<Entry>, exact: map<string, string>, e: Entry, es: seq<Entry>)
    requires HoldsExact(front, exact) && forall a :: a in es <==> a in front || a == e
    ensures HoldsExact(es, exact[e.cleaned := e.key])
  {
    assert e in es;
  }

  lemma CanonicalHolds(front: seq<Entry>, canonical: map<string, seq<string>>, e: Entry, es: seq<Entry>)
    requires HoldsCanonical(front, canonical) && forall a :: a in es <==> a in front || a == e
    ensures HoldsCanonical(es, canonical[e.canonical := (if e.canonical in canonical then canonical[e.canonical] else []) + [e.key]])
  {
    var next := canonical[e.canonical := (if e.canonical in canonical then canonical[e.canonical] else []) + [e.key]];
    assert e in es;
    forall c, k | c in next ensures k in next[c] <==> exists a :: a in es && a.canonical == c && a.key == k {
      if c == e.canonical && c !in canonical { assert forall a :: a in front ==> a.canonical != c; }
    }
  }

  lemma {:induction false} KnownMembers(refs: map<string, string>, keys: seq<string>, r: string)
    ensures r in Known(refs, keys) <==> exists k :: k in keys && k in refs && refs[k] == r
  {
    if keys != [] {
      assert keys == [keys[0]] + keys[1..];
      KnownMembers(refs, keys[1..], r);
    }
  }

  /** Resolution by index is a search through the packages: by cleaned key, else by canonical key. */
  lemma ResolveIsSearch(es: seq<Entry>, ix: Indexes, exact: string, canonical: string, r: string)
    requires Coherent(es) && Holds(es, ix)
    ensures r in ResolveKeys(ix, exact, canonical) <==>
            if exists e :: e in es && e.cleaned == exact
            then exists e :: e in es && e.cleaned == exact && e.reference == r
            else exists e :: e in es && e.canonical == canonical && e.reference == r
  {
    if exact in ix.exact {
      KnownMembers(ix.refs, [ix.exact[exact]], r);
      assert ix.exact[exact] in [ix.exact[exact]];
      var found :| found in es && found.cleaned == exact && found.key == ix.exact[exact];
      assert ix.refs[found.key] == found.reference;
    } else if canonical in ix.canonical {
      KnownMembers(ix.refs, ix.canonical[canonical], r);
    }
  }

  // ------------------------------------------------------------------- the loader

  function EntrySeq(keys: seq<string>): seq<Entry> {
    if keys == [] then []
    else EntrySeq(keys[..|keys| - 1]) + if IsPackage(keys[|keys| - 1]) then [EntryOf(keys[|keys| - 1])] else []
  }

  lemma {:induction false} EntrySeqForm(keys: seq<string>)
    ensures forall e :: e in EntrySeq(keys) ==> e == EntryOf(e.key)
  {
    if keys != [] { EntrySeqForm(keys[..|keys| - 1]); }
  }

  lemma EntrySeqCoherent(keys: seq<string>)
    ensures Coherent(EntrySeq(keys))
  {
    EntrySeqForm(keys);
  }

  function RefOf(e: Entry): string {
    e.reference
  }

  /** The dependency strings of a reference: those of all its keys' snapshots, in key order. */
  function SnapshotDeps(es: seq<Entry>, snapshots: map<string, seq<string>>): map<string, seq<string>> {
    if es == [] then map[]
    else
      var m, e := SnapshotDeps(es[..|es| - 1], snapshots), es[|es| - 1];
      m[e.reference := (if e.reference in m then m[e.reference] else [])
                       + if e.key in snapshots then snapshots[e.key] else []]
  }

  lemma {:induction false} SnapshotKeys(es: seq<Entry>, snapshots: map<string, seq<string>>)
    ensures SnapshotDeps(es, snapshots).Keys == EntryRefs(es, RefOf)
  {
    if es != [] {
      var front, e := es[..|es| - 1], es[|es| - 1];
      SnapshotKeys(front, snapshots);
      assert es == front + [e] && e in es;
      assert forall a :: a in es <==> a in front || a == e;
    }
  }

  function PnpmComponent(e: Entry, packages: map<string, Option<string>>): Component {
    var (name, version) := PnpmLock.SplitKey(e.cleaned);
    LegacyNpm.NpmComponent(e.reference, name, Some(version), if e.key in packages then packages[e.key] else None)
  }

  /** One component per accepted key, in key order. */
  ghost predicate Describe(components: seq<Component>, es: seq<Entry>, packages: map<string, Option<string>>) {
    && |components| == |es|
    && forall i :: 0 <= i < |components| ==> components[i] == PnpmComponent(es[i], packages)
  }

  method Components(es: seq<Entry>, packages: map<string, Option<string>>) returns (components: seq<Component>)
    ensures Describe(components, es, packages)
  {
    components := [];
    for i := 0 to |es|
      invariant Describe(components, es[..i], packages)
    {
      DescribeNext(components, es, i, packages);
      components := components + [PnpmComponent(es[i], packages)];
    }
    assert es[..|es|] == es;
  }

  lemma DescribeNext(components: seq<Component>, es: seq<Entry>, i: nat, packages: map<string, Option<string>>)
    requires i < |es| && Describe(components, es[..i], packages)
    ensures Describe(components + [PnpmComponent(es[i], packages)], es[..i + 1], packages)
  {
    assert forall k :: 0 <= k < i ==> es[..i + 1][k] == es[..i][k];
  }

  const PREFIX := "pnpm:key:"

  lemma RootIsNoComponent(root: string, keys: seq<string>)
    requires !(PREFIX <= root)
    ensures root !in EntryRefs(EntrySeq(keys), RefOf)
  {
    EntrySeqForm(keys);
    forall e | e in EntrySeq(keys) ensures PREFIX <= e.reference {
      assert e.reference[..|PREFIX|] == PREFIX;
    }
  }

  lemma ResolvedIsEntry(es: seq<Entry>, ix: Indexes, exact: string, canonical: string, r: string)
    requires Coherent(es) && Holds(es, ix) && r in ResolveKeys(ix, exact, canonical)
    ensures r in EntryRefs(es, RefOf)
  {
    ResolveIsSearch(es, ix, exact, canonical, r);
  }

  // --------------------------------------------------- what the entries say, key by key

  /** The key names a package: it splits into a name and a version. */
  predicate IsAccepted(keys: seq<string>, k: string) {
    k in keys && var (name, version) := PnpmLock.SplitKey(TrimMatches(k, Is('/'))); name != "" && version != ""
  }

  /** Two keys equal up to outer slashes. */
  predicate SameKey(k: string, d: string) {
    TrimMatches(k, Is('/')) == TrimMatches(d, Is('/'))
  }

  /** Two keys equal up to outer slashes and peer suffixes. */
  predicate SameBase(k: string, d: string) {
    Before(TrimMatches(k, Is('/')), '(') == Before(TrimMatches(d, Is('/')), '(')
  }

  /** What `name@version` stands for: the package with this key or, when there is none, every one that differs in the peers only. */
  ghost predicate Denotes(keys: seq<string>, d: string, k: string) {
    && IsAccepted(keys, k)
    && (SameKey(k, d) || ((forall j :: IsAccepted(keys, j) ==> !SameKey(j, d)) && SameBase(k, d)))
  }

  function KeyRef(k: string): string {
    "pnpm:key:" + Sanitize(TrimMatches(k, Is('/')))
  }

  lemma EntryFields(k: string)
    ensures var e := EntryOf(k);
            && e.key == k && e.cleaned == TrimMatches(k, Is('/')) && e.reference == KeyRef(k)
            && e.canonical == Before(TrimMatches(k, Is('/')), '(')
  {
    TrimTwice(k, '/');
  }

  lemma {:induction false} EntryMembers(keys: seq<string>, e: Entry)
    ensures e in EntrySeq(keys) <==> IsAccepted(keys, e.key) && e == EntryOf(e.key)
  {
    if keys != [] {
      var front, k := keys[..|keys| - 1], keys[|keys| - 1];
      assert keys == front + [k];
      EntryMembers(front, e);
    }
  }

  /** Resolution by index says what the string denotes. */
  lemma ResolvedDenotes(keys: seq<string>, ix: Indexes, d: string, b: string)
    requires ix == IndexOf(EntrySeq(keys))
    ensures b in ResolveText(ix, d) <==> exists k :: Denotes(keys, d, k) && b == KeyRef(k)
  {
    var es := EntrySeq(keys);
    EntrySeqCoherent(keys);
    IndexHolds(es);
    ResolveIsSearch(es, ix, Clean(d), Canonical(d), b);
    forall e ensures e in es <==> IsAccepted(keys, e.key) && e == EntryOf(e.key) { EntryMembers(keys, e); }
    forall k ensures IsAccepted(keys, k) <==> EntryOf(k) in es { EntryFields(k); }
    SearchDenotes(keys, es, d, b);
  }

  lemma SearchDenotes(keys: seq<string>, es: seq<Entry>, d: string, b: string)
    requires forall e :: e in es <==> IsAccepted(keys, e.key) && e == EntryOf(e.key)
    requires forall k :: IsAccepted(keys, k) <==> EntryOf(k) in es
    ensures (if exists e :: e in es && e.cleaned == Clean(d)
             then exists e :: e in es && e.cleaned == Clean(d) && e.reference == b
             else exists e :: e in es && e.canonical == Canonical(d) && e.reference == b)
       <==> exists k :: Denotes(keys, d, k) && b == KeyRef(k)
  {
    forall k ensures SameKey(k, d) <==> EntryOf(k).cleaned == Clean(d) { EntryFields(k); }
    forall k ensures SameBase(k, d) <==> EntryOf(k).canonical == Canonical(d) { EntryFields(k); }
    forall k ensures EntryOf(k).reference == KeyRef(k) && EntryOf(k).key == k { EntryFields(k); }
    if exists e :: e in es && e.cleaned == Clean(d) {
      var f :| f in es && f.cleaned == Clean(d);
      assert IsAccepted(keys, f.key) && SameKey(f.key, d);
      if e :| e in es && e.cleaned == Clean(d) && e.reference == b { assert Denotes(keys, d, e.key); }
      if k :| Denotes(keys, d, k) && b == KeyRef(k) { assert EntryOf(k) in es; }
    } else {
      if e :| e in es && e.canonical == Canonical(d) && e.reference == b {
        assert forall j :: IsAccepted(keys, j) ==> EntryOf(j) in es;
        assert Denotes(keys, d, e.key);
      }
      if k :| Denotes(keys, d, k) && b == KeyRef(k) { assert EntryOf(k) in es; }
    }
  }

  /** Some package with reference `a` has the dependency string `d`. */
  ghost predicate Brings(es: seq<Entry>, snapshots: map<string, seq<string>>, a: string, d: string) {
    exists e :: e in es && BringsOne(e, snapshots, a, d)
  }

  ghost predicate BringsOne(e: Entry, snapshots: map<string, seq<string>>, a: string, d: string) {
    e.reference == a && e.key in snapshots && d in snapshots[e.key]
  }

  lemma BringsLast(front: seq<Entry>, e: Entry, snapshots: map<string, seq<string>>, a: string, d: string)
    ensures Brings(front + [e], snapshots, a, d) <==> Brings(front, snapshots, a, d) || BringsOne(e, snapshots, a, d)
  {
    assert forall x :: x in front + [e] <==> x in front || x == e;
  }

  lemma {:induction false} SnapshotMembers(es: seq<Entry>, snapshots: map<string, seq<string>>, a: string, d: string)
    ensures a in SnapshotDeps(es, snapshots) && d in SnapshotDeps(es, snapshots)[a] <==> Brings(es, snapshots, a, d)
  {
    if es != [] {
      var front, e := es[..|es| - 1], es[|es| - 1];
      assert es == front + [e];
      SnapshotMembers(front, snapshots, a, d);
      BringsLast(front, e, snapshots, a, d);
    }
  }

  // ------------------------------------------------------------------- the whole loader

  type Dependencies = seq<(string, string)>

  function Texts(ds: Dependencies): seq<string> {
    seq(|ds|, i requires 0 <= i < |ds| => ds[i].0 + "@" + ds[i].1)
  }

  /** A dependency of some package with reference `a` denotes one with reference `b`. */
  ghost predicate Links(keys: seq<string>, snapshots: map<string, Dependencies>, a: string, b: string) {
    exists k, name, version, t :: LinksBy(keys, snapshots, k, name, version, t, a, b)
  }

  ghost predicate LinksBy(keys: seq<string>, snapshots: map<string, Dependencies>,
                          k: string, name: string, version: string, t: string, a: string, b: string) {
    && IsAccepted(keys, k) && a == KeyRef(k) && k in snapshots && (name, version) in snapshots[k]
    && Denotes(keys, name + "@" + version, t) && b == KeyRef(t)
  }

  /** A direct dependency of the project denotes the package with reference `b`. */
  ghost predicate Imports(keys: seq<string>, importers: Dependencies, b: string) {
    exists name, version, t :: (name, version) in importers && Denotes(keys, name + "@" + version, t) && b == KeyRef(t)
  }

  lemma WantsImports(keys: seq<string>, ix: Indexes, importers: Dependencies, b: string)
    requires ix == IndexOf(EntrySeq(keys))
    ensures Wants(Resolver(ix), Texts(importers), b) <==> Imports(keys, importers, b)
  {
    if Wants(Resolver(ix), Texts(importers), b) {
      var i :| 0 <= i < |Texts(importers)| && b in Resolver(ix)(Texts(importers)[i]);
      ResolvedDenotes(keys, ix, Texts(importers)[i], b);
      assert (importers[i].0, importers[i].1) in importers;
    }
    if name, version, t :| (name, version) in importers && Denotes(keys, name + "@" + version, t) && b == KeyRef(t) {
      var i :| 0 <= i < |importers| && importers[i] == (name, version);
      ResolvedDenotes(keys, ix, Texts(importers)[i], b);
      assert b in Resolver(ix)(Texts(importers)[i]);
    }
  }

  function AllTexts(snapshots: map<string, Dependencies>): map<string, seq<string>> {
    map k | k in snapshots :: Texts(snapshots[k])
  }

  lemma WantsLinks(keys: seq<string>, ix: Indexes, snapshots: map<string, Dependencies>, a: string, b: string)
    requires ix == IndexOf(EntrySeq(keys))
    requires a in SnapshotDeps(EntrySeq(keys), AllTexts(snapshots))
    ensures Wants(Resolver(ix), SnapshotDeps(EntrySeq(keys), AllTexts(snapshots))[a], b) <==> Links(keys, snapshots, a, b)
  {
    var es, texts := EntrySeq(keys), AllTexts(snapshots);
    var ds := SnapshotDeps(es, texts)[a];
    if Wants(Resolver(ix), ds, b) {
      var i :| 0 <= i < |ds| && b in Resolver(ix)(ds[i]);
      WantedLinks(keys, ix, snapshots, a, b, ds[i]);
    }
    if k, name, version, t :| LinksBy(keys, snapshots, k, name, version, t, a, b) {
      LinkWanted(keys, ix, snapshots, k, name, version, t, a, b);
      var i :| 0 <= i < |ds| && ds[i] == name + "@" + version;
      assert b in Resolver(ix)(ds[i]);
    }
  }

  lemma WantedLinks(keys: seq<string>, ix: Indexes, snapshots: map<string, Dependencies>, a: string, b: string, d: string)
    requires ix == IndexOf(EntrySeq(keys)) && b in ResolveText(ix, d)
    requires a in SnapshotDeps(EntrySeq(keys), AllTexts(snapshots)) && d in SnapshotDeps(EntrySeq(keys), AllTexts(snapshots))[a]
    ensures Links(keys, snapshots, a, b)
  {
    SnapshotMembers(EntrySeq(keys), AllTexts(snapshots), a, d);
    var e :| e in EntrySeq(keys) && BringsOne(e, AllTexts(snapshots), a, d);
    EntryMembers(keys, e);
    EntryFields(e.key);
    ResolvedDenotes(keys, ix, d, b);
    var t :| Denotes(keys, d, t) && b == KeyRef(t);
    var i :| 0 <= i < |Texts(snapshots[e.key])| && Texts(snapshots[e.key])[i] == d;
    var dep := snapshots[e.key][i];
    assert LinksBy(keys, snapshots, e.key, dep.0, dep.1, t, a, b);
  }

  lemma LinkWanted(keys: seq<string>, ix: Indexes, snapshots: map<string, Dependencies>,
                   k: string, name: string, version: string, t: string, a: string, b: string)
    requires ix == IndexOf(EntrySeq(keys)) && LinksBy(keys, snapshots, k, name, version, t, a, b)
    requires a in SnapshotDeps(EntrySeq(keys), AllTexts(snapshots))
    ensures name + "@" + version in SnapshotDeps(EntrySeq(keys), AllTexts(snapshots))[a]
    ensures b in ResolveText(ix, name + "@" + version)
  {
    var d := name + "@" + version;
    ResolvedDenotes(keys, ix, d, b);
    EntryFields(k);
    EntryMembers(keys, EntryOf(k));
    var i :| 0 <= i < |snapshots[k]| && snapshots[k][i] == (name, version);
    assert Texts(snapshots[k])[i] == d;
    assert BringsOne(EntryOf(k), AllTexts(snapshots), a, d);
    SnapshotMembers(EntrySeq(keys), AllTexts(snapshots), a, d);
  }

  /** `ps` lists the positions of the keys that `accept` takes, and `es` what `make` makes of these. */
  ghost predicate Selects<E>(keys: seq<string>, accept: string -> bool, make: string -> E, es: seq<E>, ps: seq<nat>) {
    && |ps| == |es|
    && (forall i :: 0 <= i < |ps| ==> ps[i] < |keys| && es[i] == make(keys[ps[i]]))
    && (forall i, j :: 0 <= i < j < |ps| ==> ps[i] < ps[j])
    && (forall n :: 0 <= n < |keys| ==> (n in ps <==> accept(keys[n])))
  }

  lemma SelectsNext<E>(front: seq<string>, k: string, accept: string -> bool, make: string -> E, es: seq<E>, ps: seq<nat>)
    requires Selects(front, accept, make, es, ps)
    ensures accept(k) ==> Selects(front + [k], accept, make, es + [make(k)], ps + [|front|])
    ensures !accept(k) ==> Selects(front + [k], accept, make, es, ps)
  {
    var keys := front + [k];
    assert forall n :: 0 <= n < |front| ==> keys[n] == front[n];
    assert keys[|front|] == k;
  }

  /** The positions of the accepted keys, in order. */
  lemma {:induction false} Positions(keys: seq<string>) returns (ps: seq<nat>)
    ensures Selects(keys, IsPackage, EntryOf, EntrySeq(keys), ps)
  {
    if keys == [] {
      ps := [];
    } else {
      var front, k := keys[..|keys| - 1], keys[|keys| - 1];
      assert keys == front + [k];
      ps := Positions(front);
      SelectsNext(front, k, IsPackage, EntryOf, EntrySeq(front), ps);
      ps := if IsPackage(k) then ps + [|front|] else ps;
    }
  }

  /** The component of an accepted key. */
  ghost predicate IsComponentOf(c: Component, k: string, packages: map<string, Option<string>>) {
    var (name, version) := PnpmLock.SplitKey(TrimMatches(k, Is('/')));
    var (namespace, plain) := LegacyNpm.SplitNpmName(name);
    && c.reference == KeyRef(k)
    && c.coordinate == Coordinate(Npm, plain, Some(version), namespace)
    && c.integrity == if k in packages then packages[k] else None
  }

  /** No dependency leads to `b`. */
  ghost predicate IsUnlinked(keys: seq<string>, snapshots: map<string, Dependencies>, b: string) {
    forall a :: !Links(keys, snapshots, a, b)
  }

  method BuildGraph(root: string, keys: seq<string>, packages: map<string, Option<string>>,
                    deps: map<string, seq<string>>, importers: seq<string>)
    returns (components: seq<Component>, edges: Edges<string>)
    requires !(PREFIX <= root) && deps.Keys == EntryRefs(EntrySeq(keys), RefOf)
    ensures ClosedGraph(root, components, edges) && root !in deps
    ensures Describe(components, EntrySeq(keys), packages) && Refs(components) == deps.Keys
    ensures Connected(Resolver(IndexOf(EntrySeq(keys))), deps, root, importers, edges)
  {
    var es := EntrySeq(keys);
    var ix := IndexOf(es);
    EntrySeqCoherent(keys);
    IndexHolds(es);
    RootIsNoComponent(root, keys);
    components := Components(es, packages);
    DescribedRefs(components, es, RefOf);
    forall d, b | b in Resolver(ix)(d) ensures b in Refs(components) {
      ResolvedIsEntry(es, ix, Clean(d), Canonical(d), b);
    }
    edges := ConnectGraph(Resolver(ix), deps, root, importers, components);
  }

  /**
   Loads the lockfile.  `packages` gives the integrity of each package, snapshots and importers their
   dependencies by name and version.  Keys are those of packages and snapshots, in order.
   */
  method LoadPnpmLock(root: string, packages: map<string, Option<string>>,
                      snapshots: map<string, Dependencies>, importers: Dependencies)
    returns (components: seq<Component>, edges: Edges<string>, ghost keys: seq<string>, ghost positions: seq<nat>)
    requires !(PREFIX <= root)
    ensures ClosedGraph(root, components, edges)
    ensures Lists(keys, packages.Keys + snapshots.Keys) && |components| == |positions|
    ensures forall i, j :: 0 <= i < j < |positions| ==> positions[i] < positions[j]
    ensures forall n :: 0 <= n < |keys| ==> (n in positions <==> IsAccepted(keys, keys[n]))
    ensures forall i :: 0 <= i < |components| ==> positions[i] < |keys| && IsComponentOf(components[i], keys[positions[i]], packages)
    ensures forall a, b :: a != root ==> (Edge(edges, a, b) <==> Links(keys, snapshots, a, b))
    ensures forall b :: Edge(edges, root, b) <==>
              if exists c :: Imports(keys, importers, c) then Imports(keys, importers, b)
              else b in Refs(components) && IsUnlinked(keys, snapshots, b)
  {
    var all := Enumerate(packages.Keys + snapshots.Keys);
    var deps := SnapshotDeps(EntrySeq(all), AllTexts(snapshots));
    keys := all;
    SnapshotKeys(EntrySeq(keys), AllTexts(snapshots));
    components, edges := BuildGraph(root, all, packages, deps, Texts(importers));
    positions := Positions(keys);
    DescribePositions(keys, positions, components, packages);
    ComponentLinks(keys, root, snapshots, importers, deps, edges);
    RootLinks(keys, root, snapshots, importers, deps, edges);
  }

  lemma DescribePositions(keys: seq<string>, ps: seq<nat>, components: seq<Component>, packages: map<string, Option<string>>)
    requires Selects(keys, IsPackage, EntryOf, EntrySeq(keys), ps) && Describe(components, EntrySeq(keys), packages)
    ensures |components| == |ps|
    ensures forall n :: 0 <= n < |keys| ==> (n in ps <==> IsAccepted(keys, keys[n]))
    ensures forall i :: 0 <= i < |components| ==> ps[i] < |keys| && IsComponentOf(components[i], keys[ps[i]], packages)
  {
    forall n | 0 <= n < |keys| ensures n in ps <==> IsAccepted(keys, keys[n]) {
      assert n in ps <==> IsPackage(keys[n]);
    }
    forall i | 0 <= i < |components| ensures IsComponentOf(components[i], keys[ps[i]], packages) {
      EntryFields(keys[ps[i]]);
      ComponentFields(EntrySeq(keys)[i], keys[ps[i]], packages);
    }
  }

  lemma ComponentFields(e: Entry, k: string, packages: map<string, Option<string>>)
    requires e.key == k && e.cleaned == TrimMatches(k, Is('/')) && e.reference == KeyRef(k)
    ensures IsComponentOf(PnpmComponent(e, packages), k, packages)
  {
  }

  lemma LinksOnlyKnown(keys: seq<string>, snapshots: map<string, Dependencies>, a: string, b: string)
    requires Links(keys, snapshots, a, b)
    ensures a in SnapshotDeps(EntrySeq(keys), AllTexts(snapshots))
  {
    var k, name, version, t :| LinksBy(keys, snapshots, k, name, version, t, a, b);
    EntryFields(k);
    EntryMembers(keys, EntryOf(k));
    SnapshotKeys(EntrySeq(keys), AllTexts(snapshots));
  }

  lemma ComponentLinks(keys: seq<string>, root: string, snapshots: map<string, Dependencies>,
                       importers: Dependencies, deps: map<string, seq<string>>, edges: Edges<string>)
    requires deps == SnapshotDeps(EntrySeq(keys), AllTexts(snapshots)) && root !in deps
    requires Connected(Resolver(IndexOf(EntrySeq(keys))), deps, root, Texts(importers), edges)
    ensures forall a, b :: a != root ==> (Edge(edges, a, b) <==> Links(keys, snapshots, a, b))
  {
    forall a, b | a != root ensures Edge(edges, a, b) <==> Links(keys, snapshots, a, b) {
      if a in deps {
        WantsLinks(keys, IndexOf(EntrySeq(keys)), snapshots, a, b);
      } else if Links(keys, snapshots, a, b) {
        LinksOnlyKnown(keys, snapshots, a, b);
      }
    }
  }

  lemma UnwantedIsUnlinked(keys: seq<string>, snapshots: map<string, Dependencies>, deps: map<string, seq<string>>, b: string)
    requires deps == SnapshotDeps(EntrySeq(keys), AllTexts(snapshots))
    ensures (forall a :: a in deps ==> !Wants(Resolver(IndexOf(EntrySeq(keys))), deps[a], b)) <==> IsUnlinked(keys, snapshots, b)
  {
    forall a | a in deps
      ensures Wants(Resolver(IndexOf(EntrySeq(keys))), deps[a], b) <==> Links(keys, snapshots, a, b)
    {
      WantsLinks(keys, IndexOf(EntrySeq(keys)), snapshots, a, b);
    }
    forall a | Links(keys, snapshots, a, b) ensures a in deps { LinksOnlyKnown(keys, snapshots, a, b); }
  }

  lemma RootLinks(keys: seq<string>, root: string, snapshots: map<string, Dependencies>,
                  importers: Dependencies, deps: map<string, seq<string>>, edges: Edges<string>)
    requires deps == SnapshotDeps(EntrySeq(keys), AllTexts(snapshots)) && root !in deps
    requires Connected(Resolver(IndexOf(EntrySeq(keys))), deps, root, Texts(importers), edges)
    ensures forall b :: Edge(edges, root, b) <==>
              if exists c :: Imports(keys, importers, c) then Imports(keys, importers, b)
              else b in deps && IsUnlinked(keys, snapshots, b)
  {
    var resolve := Resolver(IndexOf(EntrySeq(keys)));
    forall b ensures Wants(resolve, Texts(importers), b) <==> Imports(keys, importers, b) {
      WantsImports(keys, IndexOf(EntrySeq(keys)), importers, b);
    }
    forall b
      ensures Edge(edges, root, b) <==>
                if exists c :: Imports(keys, importers, c) then Imports(keys, importers, b)
                else b in deps && IsUnlinked(keys, snapshots, b)
    {
      UnwantedIsUnlinked(keys, snapshots, deps, b);
    }
  }
}
