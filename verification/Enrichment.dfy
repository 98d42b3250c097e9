/**
 Merging remote policy decisions into local results: scatter/gather enrichment of container scan
 findings, the exit code, and the decisions of an SBOM.
 */
module Enrichment {
  import opened Wrappers
  import opened Coordinates
  import opened Findings

  function Severity(d: PolicyDecision): nat {
    match d
    case Allow => 0
    case AllowWithWarning => 1
    case FallbackToApprovedCandidate => 2
    case RequireHitlApproval => 3
    case QuarantinePendingAnalysis => 4
    case BlockPolicyViolation => 5
    case BlockKnownMalicious => 6
  }

  function Stricter(local: PolicyDecision, remote: PolicyDecision): PolicyDecision {
    if Severity(remote) > Severity(local) then remote else local
  }

  /** The decisions from the mildest to the strictest. */
  const ORDER: seq<PolicyDecision> := [
    Allow, AllowWithWarning, FallbackToApprovedCandidate, RequireHitlApproval,
    QuarantinePendingAnalysis, BlockPolicyViolation, BlockKnownMalicious]

  /** Of two decisions the one later in the order is kept, whichever side it comes from. */
  lemma StricterIsLater(i: nat, j: nat)
    requires i < |ORDER| && j < |ORDER|
    ensures Stricter(ORDER[i], ORDER[j]) == ORDER[if i < j then j else i]
    ensures forall d: PolicyDecision :: d in ORDER
  {
    assert forall k :: 0 <= k < |ORDER| ==> Severity(ORDER[k]) == k;
    forall d: PolicyDecision ensures d in ORDER { assert ORDER[Severity(d)] == d; }
  }

  predicate IsBlocking(d: PolicyDecision) {
    d.QuarantinePendingAnalysis? || d.BlockKnownMalicious? || d.BlockPolicyViolation? || d.RequireHitlApproval?
  }

  datatype Remote = Remote(coordinate: Coordinate, decision: PolicyDecision)

  // ------------------------------------------------------------------------ merging

  ghost predicate Aligned(local: seq<Finding>, remote: seq<Remote>) {
    |local| == |remote| && forall i :: 0 <= i < |local| ==> local[i].coordinate == remote[i].coordinate
  }

  /** Merges a response into the findings it answers; refuses one that does not line up. */
  method MergeFindings(local: seq<Finding>, remote: seq<Remote>) returns (r: Result<seq<Finding>>)
    ensures r.Ok? <==> Aligned(local, remote)
    ensures r.Ok? ==> |r.value| == |local|
    ensures r.Ok? ==> forall i :: 0 <= i < |local| ==>
                        r.value[i] == local[i].(decision := Stricter(local[i].decision, remote[i].decision))
  {
    if |local| != |remote| { return Err; }
    var merged := local;
    for i := 0 to |local|
      invariant |merged| == |local|
      invariant forall j :: 0 <= j < i ==> local[j].coordinate == remote[j].coordinate
      invariant forall j :: 0 <= j < i ==> merged[j] == local[j].(decision := Stricter(local[j].decision, remote[j].decision))
      invariant forall j :: i <= j < |local| ==> merged[j] == local[j]
    {
      if merged[i].coordinate != remote[i].coordinate { return Err; }
      merged := merged[i := merged[i].(decision := Stricter(merged[i].decision, remote[i].decision))];
    }
    return Ok(merged);
  }

  // ------------------------------------------------------------------ scatter/gather

  /** How many of the first `i` findings belong to the ecosystem. */
  function Rank(fs: seq<Finding>, e: Ecosystem, i: nat): nat
    requires i <= |fs|
  {
    if i == 0 then 0 else Rank(fs, e, i - 1) + if fs[i - 1].coordinate.ecosystem == e then 1 else 0
  }

  predicate In(fs: seq<Finding>, e: Ecosystem, i: nat)
    requires i < |fs|
  {
    fs[i].coordinate.ecosystem == e
  }

  lemma {:induction false} RankMonotone(fs: seq<Finding>, e: Ecosystem, i: nat, j: nat)
    requires i <= j <= |fs|
    ensures Rank(fs, e, i) <= Rank(fs, e, j)
    ensures i < j && In(fs, e, i) ==> Rank(fs, e, i) < Rank(fs, e, j)
    decreases j
  {
    if i < j { RankMonotone(fs, e, i, j - 1); }
  }

  /** `ixs` lists the positions of the ecosystem in order: position `i` stands at place `Rank(i)`. */
  ghost predicate Positions(fs: seq<Finding>, e: Ecosystem, ixs: seq<nat>, n: nat)
    requires n <= |fs|
  {
    && |ixs| == Rank(fs, e, n)
    && (forall k :: 0 <= k < |ixs| ==> ixs[k] < n && In(fs, e, ixs[k]) && Rank(fs, e, ixs[k]) == k)
    && (forall i :: 0 <= i < n && In(fs, e, i) ==> Rank(fs, e, i) < |ixs| && ixs[Rank(fs, e, i)] == i)
  }

  lemma PositionsStep(fs: seq<Finding>, e: Ecosystem, ixs: seq<nat>, n: nat, next: seq<nat>)
    requires n < |fs| && Positions(fs, e, ixs, n)
    requires next == if In(fs, e, n) then ixs + [n] else ixs
    ensures Positions(fs, e, next, n + 1)
  {
    forall i | 0 <= i < n + 1 && In(fs, e, i) ensures Rank(fs, e, i) < |next| && next[Rank(fs, e, i)] == i {
      if i < n { assert ixs[Rank(fs, e, i)] == i; }
    }
  }

  method Gather(fs: seq<Finding>, e: Ecosystem) returns (ixs: seq<nat>, subset: seq<Finding>)
    ensures Positions(fs, e, ixs, |fs|)
    ensures |subset| == |ixs| && forall k :: 0 <= k < |ixs| ==> subset[k] == fs[ixs[k]]
  {
    ixs, subset := [], [];
    for i := 0 to |fs|
      invariant Positions(fs, e, ixs, i)
    {
      ghost var before := ixs;
      if fs[i].coordinate.ecosystem == e {
        ixs := ixs + [i];
      }
      PositionsStep(fs, e, before, i, ixs);
    }
    for k := 0 to |ixs|
      invariant |subset| == k && forall j :: 0 <= j < k ==> subset[j] == fs[ixs[j]]
    {
      subset := subset + [fs[ixs[k]]];
    }
  }

  /** What the remote service answered for an ecosystem; without configuration it is not asked. */
  datatype Response = NotConfigured | Unavailable | Answer(findings: seq<Remote>)

  /** The response answers exactly the findings of the ecosystem, in order. */
  ghost predicate Answers(fs: seq<Finding>, e: Ecosystem, answer: seq<Remote>) {
    && |answer| == Rank(fs, e, |fs|)
    && forall i :: 0 <= i < |fs| && In(fs, e, i) ==>
         Rank(fs, e, i) < |answer| && answer[Rank(fs, e, i)].coordinate == fs[i].coordinate
  }

  /** `now` is `fs` with the ecosystem's decisions tightened by the answer; nothing else differs. */
  ghost predicate TightenedBy(fs: seq<Finding>, e: Ecosystem, answer: seq<Remote>, now: seq<Finding>) {
    && |now| == |fs| && Answers(fs, e, answer)
    && forall i :: 0 <= i < |fs| ==>
         now[i] == if In(fs, e, i)
                   then fs[i].(decision := Stricter(fs[i].decision, answer[Rank(fs, e, i)].decision))
                   else fs[i]
  }

  method Scatter(fs: seq<Finding>, ixs: seq<nat>, merged: seq<Finding>, e: Ecosystem) returns (r: seq<Finding>)
    requires Positions(fs, e, ixs, |fs|) && |merged| == |ixs|
    ensures |r| == |fs|
    ensures forall i :: 0 <= i < |fs| ==>
              if In(fs, e, i) then Rank(fs, e, i) < |merged| && r[i] == merged[Rank(fs, e, i)] else r[i] == fs[i]
  {
    r := fs;
    for k := 0 to |ixs|
      invariant |r| == |fs|
      invariant forall j :: 0 <= j < k ==> r[ixs[j]] == merged[j]
      invariant forall i :: 0 <= i < |fs| && !In(fs, e, i) ==> r[i] == fs[i]
    {
      forall j | 0 <= j < k ensures ixs[j] != ixs[k] { assert Rank(fs, e, ixs[j]) == j && Rank(fs, e, ixs[k]) == k; }
      r := r[ixs[k] := merged[k]];
    }
    forall i | 0 <= i < |fs| && In(fs, e, i) ensures r[i] == merged[Rank(fs, e, i)] {
      assert ixs[Rank(fs, e, i)] == i;
    }
  }

  /** There is nothing to ask, nobody to ask, or the response answers what was asked. */
  ghost predicate Accepts(fs: seq<Finding>, e: Ecosystem, response: Response) {
    Rank(fs, e, |fs|) == 0 || response.NotConfigured? || (response.Answer? && Answers(fs, e, response.findings))
  }

  /** One round of enrichment for one ecosystem. */
  method EnrichEcosystem(fs: seq<Finding>, e: Ecosystem, response: Response) returns (r: Result<seq<Finding>>)
    ensures r.Ok? <==> Accepts(fs, e, response)
    ensures r.Ok? && Rank(fs, e, |fs|) != 0 && response.Answer? ==> TightenedBy(fs, e, response.findings, r.value)
    ensures r.Ok? && (Rank(fs, e, |fs|) == 0 || response.NotConfigured?) ==> r.value == fs
  {
    var ixs, subset := Gather(fs, e);
    if ixs == [] { return Ok(fs); }
    if response.NotConfigured? { return Ok(fs); }
    if response.Unavailable? { return Err; }
    var merged := MergeFindings(subset, response.findings);
    AlignedIsAnswers(fs, e, ixs, subset, response.findings);
    if merged.Err? { return Err; }
    var now := Scatter(fs, ixs, merged.value, e);
    return Ok(now);
  }

  lemma AlignedIsAnswers(fs: seq<Finding>, e: Ecosystem, ixs: seq<nat>, subset: seq<Finding>, answer: seq<Remote>)
    requires Positions(fs, e, ixs, |fs|) && |subset| == |ixs| && forall k :: 0 <= k < |ixs| ==> subset[k] == fs[ixs[k]]
    ensures Aligned(subset, answer) <==> Answers(fs, e, answer)
    ensures forall i :: 0 <= i < |fs| && In(fs, e, i) ==> Rank(fs, e, i) < |subset| && subset[Rank(fs, e, i)] == fs[i]
  {
    if Answers(fs, e, answer) {
      forall k | 0 <= k < |subset| ensures subset[k].coordinate == answer[k].coordinate {
        assert In(fs, e, ixs[k]) && Rank(fs, e, ixs[k]) == k;
      }
    }
  }

  // --------------------------------------------------------------- only tightening

  /** Same findings at the same places; decisions may only have become stricter. */
  ghost predicate OnlyTightened(fs: seq<Finding>, now: seq<Finding>) {
    && |now| == |fs|
    && forall i :: 0 <= i < |fs| ==>
         && now[i].coordinate == fs[i].coordinate && now[i].integrity == fs[i].integrity
         && Severity(fs[i].decision) <= Severity(now[i].decision)
         && (fs[i].coordinate.ecosystem != Npm && fs[i].coordinate.ecosystem != Pypi ==> now[i] == fs[i])
  }

  lemma {:induction false} RankKept(fs: seq<Finding>, now: seq<Finding>, e: Ecosystem, i: nat)
    requires OnlyTightened(fs, now) && i <= |fs|
    ensures Rank(fs, e, i) == Rank(now, e, i)
  {
    if i > 0 { RankKept(fs, now, e, i - 1); }
  }

  /** Container scan enrichment: npm findings first, then PyPI findings, everything else untouched. */
  method EnrichContainerScan(fs: seq<Finding>, npm: Response, pypi: Response) returns (r: Result<seq<Finding>>)
    ensures r.Ok? <==> Accepts(fs, Npm, npm) && Accepts(fs, Pypi, pypi)
    ensures r.Ok? ==> OnlyTightened(fs, r.value)
    ensures r.Ok? ==> forall i :: 0 <= i < |fs| && !(In(fs, Npm, i) && npm.Answer?) && !(In(fs, Pypi, i) && pypi.Answer?) ==>
              r.value[i] == fs[i]
    ensures r.Ok? ==> forall i :: 0 <= i < |fs| && In(fs, Npm, i) && npm.Answer? ==>
              Rank(fs, Npm, i) < |npm.findings|
              && r.value[i].decision == Stricter(fs[i].decision, npm.findings[Rank(fs, Npm, i)].decision)
    ensures r.Ok? ==> forall i :: 0 <= i < |fs| && In(fs, Pypi, i) && pypi.Answer? ==>
              Rank(fs, Pypi, i) < |pypi.findings|
              && r.value[i].decision == Stricter(fs[i].decision, pypi.findings[Rank(fs, Pypi, i)].decision)
  {
    var first := EnrichEcosystem(fs, Npm, npm);
    if first.Err? { return Err; }
    var mid := first.value;
    NonEmptyRank(fs, Npm);
    NonEmptyRank(fs, Pypi);
    assert OnlyTightened(fs, mid);
    RankKept(fs, mid, Pypi, |fs|);
    AcceptsKept(fs, mid, Pypi, pypi);
    forall i | 0 <= i <= |fs| ensures Rank(fs, Pypi, i) == Rank(mid, Pypi, i) { RankKept(fs, mid, Pypi, i); }
    r := EnrichEcosystem(mid, Pypi, pypi);
  }

  lemma AcceptsKept(fs: seq<Finding>, mid: seq<Finding>, e: Ecosystem, response: Response)
    requires OnlyTightened(fs, mid)
    ensures Accepts(fs, e, response) <==> Accepts(mid, e, response)
  {
    forall i | 0 <= i <= |fs| ensures Rank(fs, e, i) == Rank(mid, e, i) { RankKept(fs, mid, e, i); }
    if response.Answer? {
      if Answers(fs, e, response.findings) {
        forall i | 0 <= i < |mid| && In(mid, e, i)
          ensures Rank(mid, e, i) < |response.findings| && response.findings[Rank(mid, e, i)].coordinate == mid[i].coordinate
        {
          assert In(fs, e, i);
        }
      }
      if Answers(mid, e, response.findings) {
        forall i | 0 <= i < |fs| && In(fs, e, i)
          ensures Rank(fs, e, i) < |response.findings| && response.findings[Rank(fs, e, i)].coordinate == fs[i].coordinate
        {
          assert In(mid, e, i);
        }
      }
    }
  }

  lemma NonEmptyRank(fs: seq<Finding>, e: Ecosystem)
    ensures forall i :: 0 <= i < |fs| && In(fs, e, i) ==> Rank(fs, e, |fs|) > 0
  {
    forall i | 0 <= i < |fs| && In(fs, e, i) ensures Rank(fs, e, |fs|) > 0 { RankMonotone(fs, e, i, |fs|); }
  }

  // ------------------------------------------------------------------- the exit code

  datatype FailOn = Warn | Block

  predicate Fails(f: Finding, failOn: FailOn) {
    match failOn
    case Warn => f.decision != Allow
    case Block => IsBlocking(f.decision)
  }

  function ExitCode(fs: seq<Finding>, failOn: FailOn): int {
    if exists i :: 0 <= i < |fs| && Fails(fs[i], failOn) then 1 else 0
  }

  /** The exit code is 1 exactly when some finding is not allowed, or is one of the four blocking decisions. */
  lemma ExitCodeMeans(fs: seq<Finding>)
    ensures ExitCode(fs, Warn) == if exists i :: 0 <= i < |fs| && fs[i].decision != Allow then 1 else 0
    ensures ExitCode(fs, Block)
         == if exists i :: 0 <= i < |fs| && fs[i].decision in
                 {QuarantinePendingAnalysis, BlockKnownMalicious, BlockPolicyViolation, RequireHitlApproval}
            then 1 else 0
  {
    assert forall i :: 0 <= i < |fs| ==> (Fails(fs[i], Warn) <==> fs[i].decision != Allow);
    var blocking := {QuarantinePendingAnalysis, BlockKnownMalicious, BlockPolicyViolation, RequireHitlApproval};
    assert forall i :: 0 <= i < |fs| ==> (Fails(fs[i], Block) <==> fs[i].decision in blocking);
  }

  lemma FailsBySeverity(f: Finding, failOn: FailOn)
    ensures Fails(f, failOn) <==> Severity(f.decision) >= if failOn.Warn? then 1 else 3
  {
  }

  /** Enrichment never turns a failing run into a passing one, whichever threshold is used. */
  lemma ExitCodeNeverLowered(fs: seq<Finding>, now: seq<Finding>, failOn: FailOn)
    requires OnlyTightened(fs, now)
    ensures ExitCode(fs, failOn) <= ExitCode(now, failOn)
  {
    if i :| 0 <= i < |fs| && Fails(fs[i], failOn) {
      FailsBySeverity(fs[i], failOn);
      FailsBySeverity(now[i], failOn);
      assert Fails(now[i], failOn);
    }
  }

  // --------------------------------------------------------------- SBOM decisions

  datatype Decided = Decided(coordinate: Coordinate, decision: PolicyDecision, timestamp: Option<string>)

  datatype SbomEntry = SbomEntry(
    reference: string, coordinate: Coordinate, decision: Option<PolicyDecision>, timestamp: Option<string>)

  ghost predicate Fits(components: seq<SbomEntry>, decisions: seq<Decided>) {
    && |components| == |decisions|
    && forall i :: 0 <= i < |components| ==> components[i].coordinate == decisions[i].coordinate
  }

  class SbomDocument {
    var components: seq<SbomEntry>

    constructor (components: seq<SbomEntry>)
      ensures this.components == components
    {
      this.components := components;
    }

    /** Applies all decisions, or none when the list does not fit the components. */
    method ApplyResolvedDecisions(decisions: seq<Decided>) returns (ok: bool)
      modifies this
      ensures ok <==> Fits(old(components), decisions)
      ensures !ok ==> components == old(components)
      ensures ok ==> |components| == |old(components)|
      ensures ok ==> forall i :: 0 <= i < |components| ==>
                       components[i] == old(components)[i].(decision := Some(decisions[i].decision), timestamp := decisions[i].timestamp)
    {
      if |components| != |decisions| { return false; }
      for i := 0 to |components|
        invariant components == old(components)
        invariant forall j :: 0 <= j < i ==> components[j].coordinate == decisions[j].coordinate
      {
        if components[i].coordinate != decisions[i].coordinate { return false; }
      }
      for i := 0 to |components|
        invariant |components| == |old(components)|
        invariant forall j :: 0 <= j < i ==>
                    components[j] == old(components)[j].(decision := Some(decisions[j].decision), timestamp := decisions[j].timestamp)
        invariant forall j :: i <= j < |components| ==> components[j] == old(components)[j]
      {
        components := components[i := components[i].(decision := Some(decisions[i].decision))];
        components := components[i := components[i].(timestamp := decisions[i].timestamp)];
      }
      return true;
    }
  }
}
