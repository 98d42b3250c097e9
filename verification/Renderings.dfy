/**
 The dependency edges as the CycloneDX and the SPDX 2.3 renderings show them.  CycloneDX keeps the
 references; SPDX renames them to element identifiers and lists DEPENDS_ON relationships.
 */
module Renderings {
  import opened Wrappers
  import opened Coordinates
  import opened Graph
  import opened Ordering
  import opened Sbom

  // ------------------------------------------------------------------ identifiers

  const DIGITS := "0123456789"

  function Decimal(n: nat): string {
    if n < 10 then [DIGITS[n]] else Decimal(n / 10) + [DIGITS[n % 10]]
  }

  lemma {:induction false} DecimalInjective(m: nat, n: nat)
    requires Decimal(m) == Decimal(n)
    ensures m == n
  {
    var a, b := Decimal(m), Decimal(n);
    assert a[|a| - 1] == DIGITS[m % 10] && b[|b| - 1] == DIGITS[n % 10];
    DigitsDistinct(m % 10, n % 10);
    DecimalLength(m);
    DecimalLength(n);
    if m >= 10 {
      assert a[..|a| - 1] == Decimal(m / 10) && b[..|b| - 1] == Decimal(n / 10);
      DecimalInjective(m / 10, n / 10);
    }
  }

  /** The number a row of decimal digits spells. */
  function Number(s: string): int {
    if s == "" then 0 else Number(s[..|s| - 1]) * 10 + (s[|s| - 1] as int - '0' as int)
  }

  lemma {:induction false} DecimalIsNumber(n: nat)
    ensures Number(Decimal(n)) == n
  {
    assert forall k :: 0 <= k < 10 ==> DIGITS[k] as int == '0' as int + k;
    var s := Decimal(n);
    if n >= 10 {
      DecimalIsNumber(n / 10);
      assert s[..|s| - 1] == Decimal(n / 10);
    } else {
      assert s[..0] == "";
    }
  }

  lemma DecimalLength(n: nat)
    ensures |Decimal(n)| >= 1 && (|Decimal(n)| == 1 <==> n < 10)
  {
  }

  lemma DigitsDistinct(i: nat, j: nat)
    requires i < 10 && j < 10 && DIGITS[i] == DIGITS[j]
    ensures i == j
  {
    assert forall k :: 0 <= k < 10 ==> DIGITS[k] as int == '0' as int + k;
  }

  const ROOT_ID := "SPDXRef-Root"

  function PackageId(n: nat): string {
    "SPDXRef-Package-" + Decimal(n)
  }

  lemma PackageIdInjective(m: nat, n: nat)
    requires PackageId(m) == PackageId(n)
    ensures m == n
  {
    assert PackageId(m)[16..] == Decimal(m) && PackageId(n)[16..] == Decimal(n);
    DecimalInjective(m, n);
  }

  lemma PackageIdIsNotRoot(n: nat)
    ensures PackageId(n) != ROOT_ID
  {
    assert PackageId(n)[8] == 'P' && ROOT_ID[8] == 'R';
  }

  // --------------------------------------------------------------- assigning them

  /** Identifiers after the first `n` components; a repeated reference takes the later number. */
  function AssignedIds(root: string, components: seq<Component>, n: nat): map<string, string>
    requires n <= |components|
  {
    if n == 0 then map[root := ROOT_ID]
    else AssignedIds(root, components, n - 1)[components[n - 1].reference := PackageId(n)]
  }

  function SpdxIds(doc: Document): map<string, string> {
    AssignedIds(doc.root, doc.components, |doc.components|)
  }

  method AssignSpdxIds(doc: Document) returns (ids: map<string, string>)
    ensures ids == SpdxIds(doc)
    ensures doc.root in ids && (doc.root !in Refs(doc.components) ==> ids[doc.root] == "SPDXRef-Root")
    ensures forall i :: 0 <= i < |doc.components| && (forall j :: i < j < |doc.components| ==>
                          doc.components[j].reference != doc.components[i].reference) ==>
              doc.components[i].reference in ids && ids[doc.components[i].reference] == "SPDXRef-Package-" + Decimal(i + 1)
  {
    ids := map[doc.root := ROOT_ID];
    for i := 0 to |doc.components|
      invariant ids == AssignedIds(doc.root, doc.components, i)
    {
      ids := ids[doc.components[i].reference := PackageId(i + 1)];
    }
    RootKept(doc.root, doc.components, |doc.components|);
    forall i | 0 <= i < |doc.components| && forall j :: i < j < |doc.components| ==>
                 doc.components[j].reference != doc.components[i].reference
      ensures doc.components[i].reference in ids && ids[doc.components[i].reference] == PackageId(i + 1)
    {
      LastKept(doc.root, doc.components, |doc.components|, i);
    }
  }

  lemma {:induction false} RootKept(root: string, components: seq<Component>, n: nat)
    requires n <= |components|
    ensures root in AssignedIds(root, components, n)
    ensures root !in Refs(components) ==> AssignedIds(root, components, n)[root] == ROOT_ID
  {
    if n > 0 {
      RootKept(root, components, n - 1);
      assert components[n - 1] in components;
    }
  }

  lemma {:induction false} LastKept(root: string, components: seq<Component>, n: nat, i: nat)
    requires i < n <= |components| && forall j :: i < j < n ==> components[j].reference != components[i].reference
    ensures components[i].reference in AssignedIds(root, components, n)
    ensures AssignedIds(root, components, n)[components[i].reference] == PackageId(i + 1)
  {
    if i < n - 1 { LastKept(root, components, n - 1, i); }
  }

  ghost predicate Injective(m: map<string, string>) {
    forall a, b :: a in m && b in m && m[a] == m[b] ==> a == b
  }

  ghost predicate KnownId(id: string, n: nat) {
    id == ROOT_ID || exists k :: 1 <= k <= n && id == PackageId(k)
  }

  lemma {:induction false} AssignedIdsInjective(root: string, components: seq<Component>, n: nat)
    requires n <= |components|
    ensures Injective(AssignedIds(root, components, n))
    ensures AssignedIds(root, components, n).Keys == Refs(components[..n]) + {root}
    ensures forall a :: a in AssignedIds(root, components, n) ==> KnownId(AssignedIds(root, components, n)[a], n)
  {
    if n > 0 {
      AssignedIdsInjective(root, components, n - 1);
      RefsStep(components, n - 1);
      var before := AssignedIds(root, components, n - 1);
      forall a | a in before ensures before[a] != PackageId(n) {
        PackageIdIsNotRoot(n);
        if before[a] == PackageId(n) {
          var k :| 1 <= k <= n - 1 && before[a] == PackageId(k);
          PackageIdInjective(k, n);
        }
      }
    }
  }

  /** Different references never share an identifier, in any document. */
  lemma SpdxIdsInjective(doc: Document)
    ensures Injective(SpdxIds(doc)) && SpdxIds(doc).Keys == Refs(doc.components) + {doc.root}
  {
    AssignedIdsInjective(doc.root, doc.components, |doc.components|);
    assert doc.components[..|doc.components|] == doc.components;
  }

  predicate Distinct(s: seq<string>) {
    forall i, j :: 0 <= i < j < |s| ==> s[i] != s[j]
  }

  /** The references of the document's packages: the root's, then one per component. */
  function AllRefs(doc: Document): seq<string> {
    [doc.root] + seq(|doc.components|, i requires 0 <= i < |doc.components| => doc.components[i].reference)
  }

  /** The identifiers under which these packages are rendered. */
  function Named(ids: map<string, string>, refs: seq<string>): seq<string>
    requires forall i :: 0 <= i < |refs| ==> refs[i] in ids
  {
    seq(|refs|, i requires 0 <= i < |refs| => ids[refs[i]])
  }

  lemma RefsHaveIds(doc: Document)
    ensures forall i :: 0 <= i < |AllRefs(doc)| ==> AllRefs(doc)[i] in SpdxIds(doc)
  {
    SpdxIdsInjective(doc);
    forall i | 0 <= i < |AllRefs(doc)| ensures AllRefs(doc)[i] in SpdxIds(doc).Keys {
      if i > 0 { assert doc.components[i - 1] in doc.components; }
    }
  }

  lemma NamedDistinct(ids: map<string, string>, refs: seq<string>)
    requires Injective(ids) && forall i :: 0 <= i < |refs| ==> refs[i] in ids
    ensures Distinct(Named(ids, refs)) <==> Distinct(refs)
  {
    var names := Named(ids, refs);
    if Distinct(names) {
      forall i, j | 0 <= i < j < |refs| ensures refs[i] != refs[j] { assert names[i] != names[j]; }
    }
  }

  /** SPDX element identifiers are unique in a document exactly when its references are. */
  lemma PackageIdsDistinct(doc: Document)
    ensures forall i :: 0 <= i < |AllRefs(doc)| ==> AllRefs(doc)[i] in SpdxIds(doc)
    ensures Distinct(Named(SpdxIds(doc), AllRefs(doc))) <==> Distinct(AllRefs(doc))
  {
    RefsHaveIds(doc);
    SpdxIdsInjective(doc);
    NamedDistinct(SpdxIds(doc), AllRefs(doc));
  }

  // --------------------------------------------------------------------- the edges

  /** The `dependsOn` edges of the CycloneDX rendering, in document order. */
  function CyclonedxEdges(deps: seq<Dependency>): seq<(string, string)> {
    if deps == [] then []
    else CyclonedxEdges(deps[..|deps| - 1]) + Targets(deps[|deps| - 1].from, deps[|deps| - 1].to)
  }

  function Targets(from: string, to: seq<string>): seq<(string, string)> {
    seq(|to|, i requires 0 <= i < |to| => (from, to[i]))
  }

  predicate Known(ids: map<string, string>, e: (string, string)) {
    e.0 in ids && e.1 in ids
  }

  /** Renames the edges whose ends both have an identifier, and drops the others. */
  function Renamed(ids: map<string, string>, es: seq<(string, string)>): seq<(string, string)> {
    if es == [] then []
    else
      var e := es[|es| - 1];
      Renamed(ids, es[..|es| - 1]) + if Known(ids, e) then [(ids[e.0], ids[e.1])] else []
  }

  lemma {:induction false} RenamedAppend(ids: map<string, string>, a: seq<(string, string)>, b: seq<(string, string)>)
    ensures Renamed(ids, a + b) == Renamed(ids, a) + Renamed(ids, b)
  {
    if b == [] {
      assert a + b == a;
    } else {
      var front := b[..|b| - 1];
      RenamedAppend(ids, a, front);
      assert (a + b)[..|a + b| - 1] == a + front;
    }
  }

  lemma RenamedNothing(ids: map<string, string>, from: string, to: seq<string>)
    requires from !in ids
    ensures Renamed(ids, Targets(from, to)) == []
    decreases |to|
  {
    if to != [] {
      assert Targets(from, to)[..|to| - 1] == Targets(from, to[..|to| - 1]);
      RenamedNothing(ids, from, to[..|to| - 1]);
    }
  }

  /** A relationship of the SPDX rendering: the document describes an element, or one element depends on another. */
  datatype Relationship = Describes(element: string) | DependsOn(from: string, to: string)

  function AllDependsOn(es: seq<(string, string)>): seq<Relationship> {
    seq(|es|, i requires 0 <= i < |es| => DependsOn(es[i].0, es[i].1))
  }

  lemma AllDependsOnAppend(a: seq<(string, string)>, b: seq<(string, string)>)
    ensures AllDependsOn(a + b) == AllDependsOn(a) + AllDependsOn(b)
  {
  }

  lemma OneMoreTarget(ids: map<string, string>, from: string, to: seq<string>, k: nat)
    requires k < |to| && from in ids
    ensures AllDependsOn(Renamed(ids, Targets(from, to[..k + 1])))
         == AllDependsOn(Renamed(ids, Targets(from, to[..k])))
            + if to[k] in ids then [DependsOn(ids[from], ids[to[k]])] else []
  {
    assert Targets(from, to[..k + 1])[..k] == Targets(from, to[..k]);
  }

  /** The relationships of one source, which has an identifier. */
  method RelateTargets(ids: map<string, string>, from: string, to: seq<string>) returns (r: seq<Relationship>)
    requires from in ids
    ensures r == AllDependsOn(Renamed(ids, Targets(from, to)))
  {
    r := [];
    for k := 0 to |to|
      invariant r == AllDependsOn(Renamed(ids, Targets(from, to[..k])))
    {
      OneMoreTarget(ids, from, to, k);
      if to[k] in ids {
        r := r + [DependsOn(ids[from], ids[to[k]])];
      }
    }
    assert to[..|to|] == to;
  }

  lemma OneMoreSource(ids: map<string, string>, deps: seq<Dependency>, i: nat)
    requires i < |deps|
    ensures AllDependsOn(Renamed(ids, CyclonedxEdges(deps[..i + 1])))
         == AllDependsOn(Renamed(ids, CyclonedxEdges(deps[..i])))
            + if deps[i].from in ids then AllDependsOn(Renamed(ids, Targets(deps[i].from, deps[i].to))) else []
  {
    var before, more := CyclonedxEdges(deps[..i]), Targets(deps[i].from, deps[i].to);
    assert deps[..i + 1][..i] == deps[..i];
    assert CyclonedxEdges(deps[..i + 1]) == before + more;
    RenamedAppend(ids, before, more);
    AllDependsOnAppend(Renamed(ids, before), Renamed(ids, more));
    if deps[i].from !in ids { RenamedNothing(ids, deps[i].from, deps[i].to); }
  }

  function TargetRelationships(ids: map<string, string>, dep: Dependency): seq<Relationship> {
    if dep.from in ids then AllDependsOn(Renamed(ids, Targets(dep.from, dep.to))) else []
  }

  function EdgeRelationships(ids: map<string, string>, deps: seq<Dependency>): seq<Relationship> {
    AllDependsOn(Renamed(ids, CyclonedxEdges(deps)))
  }

  lemma RelateStep(head: seq<Relationship>, ids: map<string, string>, deps: seq<Dependency>, i: nat,
                   r: seq<Relationship>, more: seq<Relationship>)
    requires i < |deps| && r == head + EdgeRelationships(ids, deps[..i]) && more == TargetRelationships(ids, deps[i])
    ensures r + more == head + EdgeRelationships(ids, deps[..i + 1])
  {
    OneMoreSource(ids, deps, i);
    assert head + EdgeRelationships(ids, deps[..i]) + more == head + (EdgeRelationships(ids, deps[..i]) + more);
  }

  method RelateSource(ids: map<string, string>, dep: Dependency) returns (more: seq<Relationship>)
    ensures more == TargetRelationships(ids, dep)
  {
    more := [];
    if dep.to != [] && dep.from in ids {
      more := RelateTargets(ids, dep.from, dep.to);
    }
  }

  /** The document describes its root; then come the edges between known elements. */
  method BuildSpdxRelationships(root: string, deps: seq<Dependency>, ids: map<string, string>)
    returns (r: seq<Relationship>)
    requires root in ids
    ensures r == [Describes(ids[root])] + EdgeRelationships(ids, deps)
  {
    ghost var head := [Describes(ids[root])];
    r := [Describes(ids[root])];
    assert head + EdgeRelationships(ids, deps[..0]) == head;
    for i := 0 to |deps|
      invariant r == head + EdgeRelationships(ids, deps[..i])
    {
      var more := RelateSource(ids, deps[i]);
      RelateStep(head, ids, deps, i, r, more);
      r := r + more;
    }
    assert deps[..|deps|] == deps;
  }

  function Inverse(ids: map<string, string>): map<string, string>
    requires Injective(ids)
  {
    map r | r in ids :: ids[r] := r
  }

  ghost predicate AllKnown(ids: map<string, string>, es: seq<(string, string)>) {
    forall e :: e in es ==> Known(ids, e)
  }

  /** Renaming loses no edge exactly when every end is known; then renaming back restores the list. */
  lemma {:induction false} RenamedFaithful(ids: map<string, string>, es: seq<(string, string)>)
    requires Injective(ids)
    ensures |Renamed(ids, es)| <= |es|
    ensures |Renamed(ids, es)| == |es| <==> AllKnown(ids, es)
    ensures AllKnown(ids, es) ==> Renamed(Inverse(ids), Renamed(ids, es)) == es
  {
    if es != [] {
      var front, e := es[..|es| - 1], es[|es| - 1];
      RenamedFaithful(ids, front);
      assert es == front + [e];
      if AllKnown(ids, es) {
        var r := Renamed(ids, es);
        assert r[..|r| - 1] == Renamed(ids, front);
        assert ids[e.0] in Inverse(ids) && ids[e.1] in Inverse(ids);
      } else if AllKnown(ids, front) {
        assert !Known(ids, e);
      }
    }
  }

  // ------------------------------------------------------------------ the document

  /** The dependency list shows the dependency map: sources and targets in ascending order. */
  ghost predicate Shows(deps: seq<Dependency>, edges: Edges<string>) {
    && Lists(Sources(deps), edges.Keys)
    && forall i :: 0 <= i < |deps| ==> deps[i].from in edges && Lists(deps[i].to, edges[deps[i].from])
  }

  function Sources(deps: seq<Dependency>): seq<string> {
    seq(|deps|, i requires 0 <= i < |deps| => deps[i].from)
  }

  method FinalizeDependencies(edges: Edges<string>) returns (deps: seq<Dependency>)
    ensures Shows(deps, edges)
  {
    deps := [];
    var keys := Enumerate(edges.Keys);
    for i := 0 to |keys|
      invariant |deps| == i && Sources(deps) == keys[..i]
      invariant forall k :: 0 <= k < i ==> deps[k].from in edges && Lists(deps[k].to, edges[deps[k].from])
    {
      assert keys[i] in edges.Keys;
      var to := Enumerate(edges[keys[i]]);
      deps := deps + [Dependency(keys[i], to)];
    }
  }

  lemma {:induction false} CyclonedxMembers(deps: seq<Dependency>, e: (string, string))
    ensures e in CyclonedxEdges(deps) <==> exists i :: 0 <= i < |deps| && deps[i].from == e.0 && e.1 in deps[i].to
  {
    if deps != [] {
      var front, last := deps[..|deps| - 1], deps[|deps| - 1];
      CyclonedxMembers(front, e);
      assert e in Targets(last.from, last.to) <==> last.from == e.0 && e.1 in last.to by {
        if last.from == e.0 && e.1 in last.to {
          var k :| 0 <= k < |last.to| && last.to[k] == e.1;
          assert Targets(last.from, last.to)[k] == e;
        }
      }
      if i :| 0 <= i < |front| && front[i].from == e.0 && e.1 in front[i].to { assert deps[i] == front[i]; }
      if i :| 0 <= i < |deps| && deps[i].from == e.0 && e.1 in deps[i].to && i < |front| { assert front[i] == deps[i]; }
    }
  }

  /**
   For the closed graph of any loader: the CycloneDX edges are the edges of the graph, and the SPDX
   relationships, renamed back, are those same edges in the same order, none dropped.
   */
  lemma RenderingsAgree(doc: Document, edges: Edges<string>)
    requires ClosedGraph(doc.root, doc.components, edges) && Shows(doc.dependencies, edges)
    ensures forall a, b :: (a, b) in CyclonedxEdges(doc.dependencies) <==> Edge(edges, a, b)
    ensures var ids, es := SpdxIds(doc), CyclonedxEdges(doc.dependencies);
            && Injective(ids)
            && |Renamed(ids, es)| == |es|
            && Renamed(Inverse(ids), Renamed(ids, es)) == es
  {
    var deps := doc.dependencies;
    forall a, b ensures (a, b) in CyclonedxEdges(deps) <==> Edge(edges, a, b) {
      CyclonedxMembers(deps, (a, b));
      if Edge(edges, a, b) {
        assert a in Sources(deps);
        var i :| 0 <= i < |deps| && Sources(deps)[i] == a;
        assert deps[i].from == a && b in deps[i].to;
      }
    }
    SpdxIdsInjective(doc);
    forall e | e in CyclonedxEdges(deps) ensures Known(SpdxIds(doc), e) {
      assert (e.0, e.1) in CyclonedxEdges(deps);
      assert Edge(edges, e.0, e.1);
    }
    RenamedFaithful(SpdxIds(doc), CyclonedxEdges(deps));
  }
}
