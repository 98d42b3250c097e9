/** Scan findings and policy decisions. */
module Findings {
  import opened Wrappers
  import opened Text
  import opened Coordinates

  datatype PolicyDecision =
    | Allow
    | AllowWithWarning
    | QuarantinePendingAnalysis
    | BlockKnownMalicious
    | BlockPolicyViolation
    | RequireHitlApproval
    | FallbackToApprovedCandidate

  datatype Finding = Finding(coordinate: Coordinate, integrity: Option<string>, decision: PolicyDecision)

  /** A fresh finding; an npm name `@scope/name` is split into namespace and name. */
  function NewFinding(ecosystem: Ecosystem, rawName: string, version: Option<string>, integrity: Option<string>): Finding {
    var split := if ecosystem == Npm && "@" <= rawName then SplitOnce(rawName, '/') else None;
    var coordinate := match split
      case Some((scope, name)) => Coordinate(ecosystem, name, version, Some(TrimStartMatches(scope, Is('@'))))
      case None => Coordinate(ecosystem, rawName, version, None);
    Finding(coordinate, integrity, Allow)
  }
}
