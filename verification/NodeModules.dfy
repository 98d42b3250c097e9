/**
 Resolving an npm dependency from a `package-lock.json` path: the tool looks in the package's own
 `node_modules` directory, then in that of each enclosing package, up to the project root.
 */
module NodeModules {
  import opened Wrappers
  import opened Text

  const SEP := "/node_modules/"
  const DOUBLE := "/node_modules/node_modules/"

  function ParentPath(path: string): (parent: string)
    ensures path != "" ==> |parent| < |path|
  {
    match LastText(path, SEP, |path|)
    case Some(k) => path[..k]
    case None => ""
  }

  function Candidate(base: string, dependency: string): string {
    if base == "" then "node_modules/" + dependency else base + "/node_modules/" + dependency
  }

  function Resolved(base: string, dependency: string, refs: map<string, string>): Option<string>
    decreases |base|
  {
    if Candidate(base, dependency) in refs then Some(refs[Candidate(base, dependency)])
    else if base == "" then None
    else Resolved(ParentPath(base), dependency, refs)
  }

  method ResolveDependency(path: string, dependency: string, refs: map<string, string>) returns (r: Option<string>)
    ensures r == Resolved(path, dependency, refs)
  {
    var base := path;
    while true
      invariant Resolved(base, dependency, refs) == Resolved(path, dependency, refs)
      decreases |base|
    {
      var candidate := Candidate(base, dependency);
      if candidate in refs { return Some(refs[candidate]); }
      if base == "" { return None; }
      base := ParentPath(base);
    }
  }

  // ----------------------------------------------------------- the search bases

  /** The project root, the package itself, and every package directory that encloses it. */
  ghost predicate IsBase(path: string, base: string) {
    || base == "" || base == path
    || exists k :: 0 <= k < |path| && OccursAt(path, SEP, k) && base == path[..k]
  }

  /** The dependency is installed at this base under this reference. */
  ghost predicate HoldsAs(base: string, dependency: string, refs: map<string, string>, reference: string) {
    var path := (if base == "" then "" else base + "/") + "node_modules/" + dependency;
    path in refs && refs[path] == reference
  }

  ghost predicate Holds(base: string, dependency: string, refs: map<string, string>) {
    exists reference :: HoldsAs(base, dependency, refs, reference)
  }

  lemma CandidateHolds(base: string, dependency: string, refs: map<string, string>)
    ensures Holds(base, dependency, refs) <==> Candidate(base, dependency) in refs
    ensures forall r :: HoldsAs(base, dependency, refs, r) <==> Candidate(base, dependency) in refs && refs[Candidate(base, dependency)] == r
  {
    var path := (if base == "" then "" else base + "/") + "node_modules/" + dependency;
    assert path == Candidate(base, dependency) by {
      if base == "" {
        assert "" + "node_modules/" == "node_modules/";
      } else {
        assert base + "/" + "node_modules/" == base + "/node_modules/";
      }
    }
    if path in refs { assert HoldsAs(base, dependency, refs, refs[path]); }
  }

  /** `r` is what the deepest search base holds, or nothing when no base holds the dependency. */
  ghost predicate Deepest(path: string, dependency: string, refs: map<string, string>, r: Option<string>) {
    match r
    case None => forall b :: IsBase(path, b) ==> !Holds(b, dependency, refs)
    case Some(reference) =>
      exists b :: IsBase(path, b) && HoldsAs(b, dependency, refs, reference)
                  && forall c :: IsBase(path, c) && Holds(c, dependency, refs) ==> |c| <= |b|
  }

  /** A package directory itself called `node_modules`, below the root, hides an enclosing base. */
  ghost predicate Skips(path: string) {
    exists k :: 0 < k <= |path| && OccursAt(path, DOUBLE, k)
  }

  // ---------------------------------------------------------------- string facts

  lemma SepSlashes(i: nat)
    requires i < 14
    ensures |SEP| == 14 && (SEP[i] == '/' <==> i == 0 || i == 13)
  {
  }

  lemma OccurrencesOverlap(path: string, j: nat, k: nat)
    requires OccursAt(path, SEP, j) && OccursAt(path, SEP, k) && j < k < j + 14
    ensures k == j + 13 && OccursAt(path, DOUBLE, j)
  {
    assert path[k] == path[k..k + 14][0] == '/';
    assert path[k] == path[j..j + 14][k - j] == SEP[k - j];
    SepSlashes(k - j);
    assert DOUBLE == SEP + SEP[1..];
    assert path[j..j + 27] == path[j..j + 14] + path[j + 13..j + 27][1..];
  }

  lemma DoubleIsTwo(path: string, k: nat)
    requires OccursAt(path, DOUBLE, k)
    ensures OccursAt(path, SEP, k) && OccursAt(path, SEP, k + 13)
  {
    assert DOUBLE[..14] == SEP && DOUBLE[13..] == SEP;
    assert path[k..k + 14] == path[k..k + 27][..14];
    assert path[k + 13..k + 27] == path[k..k + 27][13..];
  }

  lemma OccursInPrefix(path: string, pattern: string, n: nat, k: nat)
    requires n <= |path|
    ensures OccursAt(path[..n], pattern, k) <==> OccursAt(path, pattern, k) && k + |pattern| <= n
  {
    if k + |pattern| <= n { assert path[..n][k..k + |pattern|] == path[k..k + |pattern|]; }
  }

  lemma SkipsInPrefix(path: string, n: nat)
    requires n <= |path| && Skips(path[..n])
    ensures Skips(path)
  {
    var k :| 0 < k <= |path[..n]| && OccursAt(path[..n], DOUBLE, k);
    OccursInPrefix(path, DOUBLE, n, k);
  }

  // ------------------------------------------------------------ parents and bases

  lemma BaseOfParent(path: string, b: string)
    requires IsBase(ParentPath(path), b)
    ensures IsBase(path, b)
  {
    var parent := ParentPath(path);
    if b != "" && b != parent {
      var n := LastText(path, SEP, |path|).value;
      var k :| 0 <= k < |parent| && OccursAt(parent, SEP, k) && b == parent[..k];
      OccursInPrefix(path, SEP, n, k);
      assert parent[..k] == path[..k];
    }
  }

  /** Unless the path skips, no enclosing base is lost when stepping to the parent. */
  lemma BaseSurvives(path: string, b: string)
    requires !Skips(path) && IsBase(path, b) && b != path
    ensures IsBase(ParentPath(path), b)
  {
    if b != "" {
      var k :| 0 <= k < |path| && OccursAt(path, SEP, k) && b == path[..k];
      var n := LastText(path, SEP, |path|).value;
      if k < n {
        if n < k + 14 { OccurrencesOverlap(path, k, n); }
        OccursInPrefix(path, SEP, n, k);
        assert path[..n][..k] == path[..k];
      }
    }
  }

  lemma ParentDoesNotSkip(path: string)
    requires !Skips(path)
    ensures !Skips(ParentPath(path))
  {
    if Skips(ParentPath(path)) {
      var n := LastText(path, SEP, |path|);
      if n.Some? { SkipsInPrefix(path, n.value); }
    }
  }

  lemma BaseIsShorter(path: string, b: string)
    requires IsBase(path, b)
    ensures |b| <= |path|
  {
  }

  /** Resolution finds the deepest holding base of every path that does not skip. */
  lemma {:induction false} ResolvedIsDeepest(path: string, dependency: string, refs: map<string, string>)
    requires !Skips(path)
    ensures Deepest(path, dependency, refs, Resolved(path, dependency, refs))
    decreases |path|
  {
    CandidateHolds(path, dependency, refs);
    if Holds(path, dependency, refs) {
      assert IsBase(path, path);
      forall c | IsBase(path, c) ensures |c| <= |path| { BaseIsShorter(path, c); }
    } else if path != "" {
      var parent := ParentPath(path);
      ParentDoesNotSkip(path);
      ResolvedIsDeepest(parent, dependency, refs);
      forall b ensures IsBase(path, b) && b != path <==> IsBase(parent, b) {
        if IsBase(parent, b) { BaseOfParent(path, b); BaseIsShorter(parent, b); }
        if IsBase(path, b) && b != path { BaseSurvives(path, b); }
      }
    }
  }

  // ------------------------------------------------------------- the skipped base

  ghost predicate InChain(path: string, b: string)
    decreases |path|
  {
    b == path || (path != "" && InChain(ParentPath(path), b))
  }

  lemma {:induction false} ResolvedInChain(path: string, b: string, dependency: string, reference: string)
    requires !InChain(path, b)
    ensures Resolved(path, dependency, map[Candidate(b, dependency) := reference]) == None
    decreases |path|
  {
    if Candidate(path, dependency) == Candidate(b, dependency) { CandidateInjective(path, b, dependency); }
    if path != "" { ResolvedInChain(ParentPath(path), b, dependency, reference); }
  }

  lemma CandidateInjective(a: string, b: string, dependency: string)
    requires Candidate(a, dependency) == Candidate(b, dependency)
    ensures a == b
  {
    assert |a| == |b|;
    assert Candidate(a, dependency)[..|a|] == Candidate(b, dependency)[..|b|];
    if a != "" {
      assert Candidate(a, dependency)[..|a|] == a && Candidate(b, dependency)[..|b|] == b;
    }
  }

  lemma {:induction false} ChainIsShorter(path: string, b: string)
    requires InChain(path, b)
    ensures |b| <= |path|
    decreases |path|
  {
    if b != path { ChainIsShorter(ParentPath(path), b); }
  }

  ghost predicate LastDouble(path: string, k: nat) {
    OccursAt(path, DOUBLE, k) && forall j :: k < j <= |path| ==> !OccursAt(path, DOUBLE, j)
  }

  lemma {:induction false} SkippedBase(path: string, k: nat)
    requires 0 < k && LastDouble(path, k)
    ensures !InChain(path, path[..k])
    decreases |path|
  {
    DoubleIsTwo(path, k);
    var n := LastText(path, SEP, |path|).value;
    var parent := ParentPath(path);
    assert n >= k + 13;
    if n == k + 13 {
      var m := LastText(parent, SEP, |parent|);
      if m.Some? { OccursInPrefix(path, SEP, n, m.value); }
      if InChain(path, path[..k]) {
        assert InChain(parent, path[..k]);
        assert InChain(ParentPath(parent), path[..k]) by { assert |path[..k]| == k && |parent| == n; }
        ChainIsShorter(ParentPath(parent), path[..k]);
      }
    } else {
      if n < k + 13 + 14 { OccurrencesOverlap(path, k + 13, n); }
      OccursInPrefix(path, DOUBLE, n, k);
      forall j | k < j <= |parent| ensures !OccursAt(parent, DOUBLE, j) { OccursInPrefix(path, DOUBLE, n, j); }
      SkippedBase(parent, k);
      assert parent[..k] == path[..k];
    }
  }

  lemma {:induction false} FindLastDouble(path: string, k: nat) returns (last: nat)
    requires OccursAt(path, DOUBLE, k)
    ensures k <= last && LastDouble(path, last)
    decreases |path| - k
  {
    if j :| k < j <= |path| && OccursAt(path, DOUBLE, j) {
      last := FindLastDouble(path, j);
    } else {
      last := k;
    }
  }

  /** Resolution is right for every dependency and path map exactly when the path does not skip. */
  lemma ResolutionExact(path: string)
    ensures !Skips(path) <==>
            forall dependency, refs :: Deepest(path, dependency, refs, Resolved(path, dependency, refs))
  {
    if !Skips(path) {
      forall dependency, refs ensures Deepest(path, dependency, refs, Resolved(path, dependency, refs)) {
        ResolvedIsDeepest(path, dependency, refs);
      }
    } else {
      var k0 :| 0 < k0 <= |path| && OccursAt(path, DOUBLE, k0);
      var k := FindLastDouble(path, k0);
      var b := path[..k];
      SkippedBase(path, k);
      ResolvedInChain(path, b, "x", "ref");
      DoubleIsTwo(path, k);
      CandidateHolds(b, "x", map[Candidate(b, "x") := "ref"]);
      assert IsBase(path, b) && Holds(b, "x", map[Candidate(b, "x") := "ref"]);
      assert !Deepest(path, "x", map[Candidate(b, "x") := "ref"], Resolved(path, "x", map[Candidate(b, "x") := "ref"]));
    }
  }
}
