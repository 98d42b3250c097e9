/** Package coordinates and their package URLs. */
module Coordinates {
  import opened Wrappers

  datatype Ecosystem =
    | Npm | Pypi | Cargo | Maven | DockerOci | GenericHttp | GithubActions | VscodeExtension

  function EcosystemName(e: Ecosystem): string {
    match e
    case Npm => "npm"
    case Pypi => "pypi"
    case Cargo => "cargo"
    case Maven => "maven"
    case DockerOci => "docker-oci"
    case GenericHttp => "generic-http"
    case GithubActions => "githubactions"
    case VscodeExtension => "vscode-extension"
  }

  datatype Coordinate = Coordinate(
    ecosystem: Ecosystem,
    name: string,
    version: Option<string>,
    namespace: Option<string>)

  function PackagePath(c: Coordinate): string {
    if c.namespace.Some? && c.namespace.value != "" then c.namespace.value + "/" + c.name else c.name
  }

  function Purl(c: Coordinate): string {
    var base := "pkg:" + EcosystemName(c.ecosystem) + "/" + PackagePath(c);
    match c.version
    case Some(version) => base + "@" + version
    case None => base
  }
}
