# Verified model of aedo-cli

`aedo-cli` reads dependency files of five package ecosystems, builds a dependency graph from them,
merges policy decisions into it, and renders it as CycloneDX or SPDX. This project models the parts
of the tool whose correctness is not visible from a single function, and proves what they promise
for all inputs.

- **Requirements files** (`Constraints`, `RequirementFiles`, `ConstraintWalk`, `EntryWalk`,
  `EntryOrder`, `Requirements`): the recursive walk over included files and
  constraint files, which may form cycles, with its visited sets and its accumulating constraint map.
- **Graph construction** (`MavenTree`, `MavenRoundTrip`, `MavenFlatReader`, `MavenReaders`,
  `MavenLog`, `MavenFailures`,  `NodeModules`, `LegacyNpm`, `PackageLock`, `PnpmSbom`, `CargoIndex`, `CargoLock`, `Connect`, `Sbom`): one
  loader per file format, each proved to build a closed graph with exactly the edges its input declares, and the
  fallback for root edges.
- **Renderings** (`Renderings`, `References`): SPDX identifiers, the relationships built from them,
  and their agreement with the CycloneDX edges.
- **Text formats** (`PnpmLock`, `PnpmRoundTrip`, `PackageUrl`, `PercentEncoding`, `Utf8`, `DockerReference`,
  `WorkspacePath`, `WorkspaceExclude`, `PypiName`, `PypiAgreement`): round trips, refinement of streaming code to a
  block-wise reading, and normal forms.
- **Findings** (`Findings`, `Aggregation`, `Enrichment`): conflict detection, enrichment that may
  only tighten decisions, all-or-nothing application.
- **Foundations** (`Wrappers`, `Text`, `Respelling`, `Graph`, `Ordering`, `Coordinates`): string
  operations, chains of spelling changes, reachability, the order of B-tree maps, package coordinates.

Code that works by updating variables, maps or fields is a method or a class with loop invariants and
a specification function; the properties are proved about that function. A file is a sequence of lines or a
decoded structure, remote responses, the name-based UUID of a Cargo source and the reading of its checksums are parameters, and an
error is an error without its message.

Some promises do not hold of the code as it is. The model follows the code, and the exact condition is
proved beside a witness:

- `node_modules` resolution skips an enclosing package when the path holds `/node_modules/node_modules/`
  behind its first character (`NodeModules.ResolutionExact`).
- The root fallback leaves components unreachable that only depend on each other
  (`Sbom.FallbackComplete`).
- A Maven project whose group starts like a line of the build log is lost or misread
  (`MavenRoundTrip.LoadPrintedProject`, `MavenLog.LoadLogged`).
- The two Maven readers differ on conflict-omitted lines, on dependency groups that start with a
  decoration character, on project groups that start with a tree mark, and on warnings that hold a
  coordinate, which the scan reader lists (`MavenReaders.ReadersAgreeOnVerbose`, `MavenLog.ListLogged`).
- Sanitised references collide, and a reference shared by two packages gives them one SPDX identifier
  and, in `Cargo.lock` files, one list of dependencies (`References.CollideIffRespelled`,
  `Renderings.PackageIdsDistinct`, `CargoLock.DependenciesKept`).
- Deduplication forgets conflicts: a third value survives (`Aggregation.FoldIsSurviving`).
- Cargo's printed keys confuse an empty source with none, and parts holding `@` or `|`
  (`CargoIndex.ResolutionExact`).
- The percent-decoder also accepts a plus sign in an escape (`PercentEncoding.StandardExact`).
- The protocol's empty-name error cannot occur, and its names differ from the command line's outside
  the stated inputs (`PypiAgreement.AgreeExactly`).
- Workspace excludes that do not end in a name are matched by their text: `.` and `/` match too little
  on relative members, and parent steps match members above them instead of below
  (`WorkspaceExclude.ExcludeExact`).

The printer of package URLs follows `crates/aegiscudo-core/src/lib.rs:108-117`. The TypeScript printer
differs from it on an empty version, which it omits; on the coordinates of the round trip, whose
versions are not empty, the two are the same.

## Model

| member | source | states |
|---|---|---|
| `Constraints.InsertRefusal` | cli/aedo-cli/src/sbom.rs:2084-2149 | inserting a constraint line fails exactly when the line makes the lines read so far inconsistent (a direct reference, or a contradiction on version, hash or integrity with any earlier line of its name) |
| `Constraints.InsertExtends` | cli/aedo-cli/src/sbom.rs:2084-2124 | an insertion that is not refused turns the pointwise join of the lines read so far into the join including the new line |
| `Constraints.AccumulateIsJoin` | cli/aedo-cli/src/sbom.rs:2084-2149 | over every sequence of constraint lines, accumulation succeeds iff all are eligible and same-name lines agree, and then the map is their pointwise join: nothing added, nothing lost |
| `Constraints.AccumulateConfluent` | cli/aedo-cli/src/sbom.rs:2039-2124 | the outcome depends only on which lines occur, not on their order or repetition |
| `Constraints.JoinMapUnique` | cli/aedo-cli/src/sbom.rs:2084-2124 | the pointwise join of a set of lines is unique |
| `Constraints.ApplyConstraints` | cli/aedo-cli/src/sbom.rs:2151-2218 | the guarded field-by-field update is the plain join of entry and constraint: the version guards never hold a value back; an incompatible pair is an error |
| `Constraints.AppliedIsJoin` | cli/aedo-cli/src/sbom.rs:2151-2218 | applying the accumulated map succeeds iff the entry agrees with every constraint line of its name, and then equals joining the entry with those lines directly; direct references are left alone |
| `Constraints.AppliedIdempotent` | cli/aedo-cli/src/sbom.rs:2151-2179 | applying the constraints a second time changes nothing |
| `Requirements.MergeValue` | cli/aedo-cli/src/sbom.rs:2126-2149 | refuses exactly two different present values; otherwise the join |
| `Requirements.Walker.InsertConstraint` | cli/aedo-cli/src/sbom.rs:2084-2124 | the in-place merge of the three fields realises one insertion, and on failure adds no name |
| `Requirements.Walker.CollectConstraints` | cli/aedo-cli/src/sbom.rs:2039-2082 | on every finite, possibly cyclic file graph the walk ends (measure: unvisited files); on success every newly visited file is reachable, was read, and has all its targets visited, and the lines seen grew by exactly the lines of those files; on failure a reachable file is missing or reachable lines contradict each other |
| `Requirements.Walker.CollectEntries` | cli/aedo-cli/src/sbom.rs:1963-2037 | the same for the entry walk: exactly the entry lines of the newly visited files, each once, in the order given by `EntryOrder.ExpandFile`, which expands each file in place where it is first included; constraint files are read to the end on the way; failures have a reachable cause |
| `Requirements.CompleteWalk` | cli/aedo-cli/src/sbom.rs:1963-2082 | after a successful walk from the start file the visited entry files are exactly those reachable by `-r`, the visited constraint files exactly those reachable by `-r`/`-c` from their `-c` targets, and the lines seen exactly the package lines of the latter |
| `Requirements.StoppedIsUnloadable` | cli/aedo-cli/src/sbom.rs:1963-2082 | a walk that stops proves that the input is not loadable |
| `Requirements.ApplyAll` | cli/aedo-cli/src/sbom.rs:1100-1102 | succeeds iff every entry can be constrained, and keeps the order of the entries |
| `Requirements.AppliedAfterWalk` | cli/aedo-cli/src/sbom.rs:1089-1103 | after a complete walk, constraining the entries succeeds iff the input is loadable |
| `Requirements.LoadRequirements` | cli/aedo-cli/src/sbom.rs:1089-1103 | success iff every reachable file exists, the constraint lines agree with each other and with the package lines they bind; then exactly the package and editable lines of the reachable files appear, each once, lines of one file in order and the entries of a file where it is first included; a package line gives its entry joined with the constraint lines of its name, an editable line its bare name |
| `MavenTree.ReadTreeEntry` | cli/aedo-cli/src/sbom.rs:1310-1333 | the prefix-stripping loop computes the recursive reading of a tree line: depth and text |
| `MavenTree.LoadDependencyTree` | cli/aedo-cli/src/sbom.rs:1143-1283 | the loop over four mutable collections equals the state machine `Load` on every sequence of lines, errors included |
| `MavenFailures.LoadSucceeds` | cli/aedo-cli/src/sbom.rs:1143-1283 | loading any file succeeds iff there is a project line, supported and the only one, and behind it every tree line is supported and at most one level below the tree line before it |
| `MavenFailures.ReadTreeLine` | cli/aedo-cli/src/sbom.rs:1212-1240 | a coordinate of four to seven parts on a tree line is read at its depth iff its type is `jar` and it has no classifier; otherwise it is refused |
| `MavenFailures.ReadBareLine` | cli/aedo-cli/src/sbom.rs:1167-1209 | the same for a line of its own, the project line |
| `MavenFailures.ListTreeLine` | cli/aedo-cli/src/lib.rs:1963-1992 | the scan reader takes every type, and behind a classifier the version in the fifth part |
| `MavenLog.LoadLogged` | cli/aedo-cli/src/sbom.rs:1285-1300 | from Maven output, every tree line behind `[INFO] ` and warnings, errors, debug lines, blank lines and build messages anywhere between, the SBOM reader delivers exactly the printed project iff its group does not start with `BUILD` or `--------` |
| `MavenLog.ListLogged` | cli/aedo-cli/src/lib.rs:1945-1992 | the scan reader lists for such output what it lists for the bare tree iff no line between holds what it takes for a coordinate |
| `MavenLog.ListQuietLog` | cli/aedo-cli/src/lib.rs:1945-1992 | for every project not starting like an information line, lines without a coordinate between change nothing for the scan reader |
| `MavenLog.BuildLinesAreQuiet` | cli/aedo-cli/src/lib.rs:1954-1961 | build result, separator, time and date lines hold no coordinate for the scan reader |
| `MavenTree.AttachKeepsInv` | cli/aedo-cli/src/sbom.rs:1232-1267 | hanging a dependency keeps: the stack is a path of the graph from the root to the current dependency, edges lead to components, every component has an entry and is reachable from the root |
| `MavenTree.RunKeepsInv` | cli/aedo-cli/src/sbom.rs:1151-1268 | the invariant holds after every run over any lines |
| `MavenTree.LoadedGraph` | cli/aedo-cli/src/sbom.rs:1143-1283 | whatever the file holds, a delivered graph is closed and connected |
| `MavenTree.LoadedIsClosed` | cli/aedo-cli/src/sbom.rs:1270-1283 | the same in the form shared by all loaders |
| `MavenTree.OmittedLinesIgnored` | cli/aedo-cli/src/sbom.rs:1215-1217 | from every state, conflict-omitted tree lines placed anywhere change nothing |
| `MavenRoundTrip.ReadPrinted` | cli/aedo-cli/src/sbom.rs:1310-1333 | a printed dependency line is read as that dependency, one level below its indentation |
| `MavenRoundTrip.ReadProject` | cli/aedo-cli/src/sbom.rs:1150-1209 | what the SBOM reader makes of every project line: the root with the group behind an information mark, or nothing when the group starts like a log line or has nothing left |
| `MavenRoundTrip.LoadForest` | cli/aedo-cli/src/sbom.rs:1232-1267 | reading a printed forest at any depth, in any reachable state, adds exactly its references as components and exactly its parent-child pairs as edges, and restores the stack up to the parent |
| `MavenRoundTrip.LoadPrinted` | cli/aedo-cli/src/sbom.rs:1143-1283 | loading any printed project of well-formed jar coordinates delivers the root as read, exactly its dependencies and exactly the image of the parent-child relation as edges, or fails when the project line is not taken for one |
| `MavenRoundTrip.LoadPrintedProject` | cli/aedo-cli/src/sbom.rs:1143-1283 | round trip: the result is the printed project itself iff its group starts with none of `[INFO]`, `[WARNING]`, `[ERROR]`, `[DEBUG]`, `BUILD`, `--------` |
| `MavenRoundTrip.BuildProjectLost` | cli/aedo-cli/src/sbom.rs:1156-1165 | every project whose group starts with `BUILD` fails to load, whatever its dependencies |
| `MavenRoundTrip.InfoProjectMisread` | cli/aedo-cli/src/sbom.rs:1285-1300 | a group starting with `[INFO]` is loaded without that start |
| `MavenFlatReader.ListDependencies` | cli/aedo-cli/src/lib.rs:1939-1995 | the scan reader with its first-line flag computes the recursive listing on every sequence of lines |
| `MavenFlatReader.FlatText` | cli/aedo-cli/src/lib.rs:1963-1964 | the scan reader loses decoration characters at the start of a group, and the whole coordinate when the group has no others |
| `MavenReaders.ListVerbose` | cli/aedo-cli/src/lib.rs:1939-1995 | the listing of every printed tree: the project line iff its group starts with `+`, `\\` or a bar, then the nodes in pre-order, omitted ones with `(` taken into the group |
| `MavenReaders.ListPrintedProject` | cli/aedo-cli/src/lib.rs:1939-1995 | the scan reader lists exactly the pre-order of the non-root nodes iff no dependency group starts with a decoration character and the project line is not listed |
| `MavenReaders.LoadVerbose` | cli/aedo-cli/src/sbom.rs:1215-1217 | omitted dependencies anywhere in a printed tree make no difference to the SBOM reader |
| `MavenReaders.ReadersAgreeOnVerbose` | cli/aedo-cli/src/lib.rs:1939-1995 | on every printed tree with omitted dependencies anywhere, both readers report the same packages iff the SBOM reader finds the project, no used group starts with a decoration character, and every omitted package URL and the listed project line, if any, is that of a used dependency |
| `MavenReaders.ReadersAgree` | cli/aedo-cli/src/sbom.rs:1143-1283 | the same condition for trees without omitted dependencies |
| `MavenReaders.ReadersDifferOnOmitted` | cli/aedo-cli/src/lib.rs:1963-1992 | every conflict-omitted line is dropped by the SBOM reader but listed by the scan reader, with `(` taken into the group |
| `MavenReaders.DecoratedGroupLost` | cli/aedo-cli/src/lib.rs:1963-1964 | a dependency anywhere in the tree whose group starts with a decoration character is in the SBOM but not in the listing |
| `Sbom.DefaultDependencyMap` | cli/aedo-cli/src/sbom.rs:1652-1662 | a closed graph without edges |
| `Sbom.ConnectAll` | cli/aedo-cli/src/sbom.rs:275-283 | image and requirements documents: a closed graph in which exactly the root points at every component |
| `Sbom.CollectRootDependencies` | cli/aedo-cli/src/sbom.rs:1664-1685 | the counting loops return exactly the components no edge leads to |
| `Sbom.FallbackComplete` | cli/aedo-cli/src/sbom.rs:754-762 | the root fallback makes every component reachable iff there is no set of components all of which have dependents, and only from within the set |
| `Sbom.FallbackOnAcyclic` | cli/aedo-cli/src/sbom.rs:946-952 | in particular it connects every acyclic graph |
| `Sbom.FallbackMissesCycle` | cli/aedo-cli/src/sbom.rs:1078-1084 | the cycle case is real: two components that only depend on each other stay unreachable |
| `Connect.ConnectGraph` | cli/aedo-cli/src/sbom.rs:1046-1084 | the pnpm and Cargo edge loops: each component points at exactly what its dependency strings resolve to, the root at what its strings resolve to or else at the components nobody wants; the graph is closed |
| `Renderings.AssignSpdxIds` | cli/aedo-cli/src/sbom.rs:1640-1650 | the root is `SPDXRef-Root` unless a component has its reference; the last component with each reference is `SPDXRef-Package-` and its position counted from 1 |
| `Renderings.DecimalIsNumber` | cli/aedo-cli/src/sbom.rs:1643-1648 | the digits written for a position spell it |
| `Renderings.SpdxIdsInjective` | cli/aedo-cli/src/sbom.rs:1640-1650 | in every document, different references never share an SPDX identifier, and exactly the root and the components have one |
| `Renderings.PackageIdsDistinct` | cli/aedo-cli/src/sbom.rs:1640-1650 | the identifiers of the rendered packages are pairwise distinct iff the references are: a component with the root's reference, or two sanitised alike, share one |
| `Renderings.FinalizeDependencies` | cli/aedo-cli/src/sbom.rs:1412-1422 | the dependency list shows the edge map: sources and targets each exactly once in ascending order |
| `Renderings.BuildSpdxRelationships` | cli/aedo-cli/src/sbom.rs:1604-1638 | the document describes its root; then the nested loops give the CycloneDX edges renamed, keeping exactly those with two known ends, in order |
| `Renderings.RenamedFaithful` | cli/aedo-cli/src/sbom.rs:1618-1635 | renaming drops no edge iff every end is known, and then renaming back restores the list |
| `Renderings.RenderingsAgree` | cli/aedo-cli/src/sbom.rs:1424-1453 | for the closed graph of any loader: the CycloneDX `dependsOn` pairs are exactly the edges, no SPDX relationship is dropped, and DEPENDS_ON mapped back is the same list (clause 11 of the SPDX 2.3 specification) |
| `PnpmLock.FlushPackage` | cli/aedo-cli/src/lib.rs:1324-1345 | flushing emits the finding of the open block, or nothing |
| `PnpmLock.ReadBodyLine` | cli/aedo-cli/src/lib.rs:1295-1315 | the flags after a line are a function of the lines of the current block only |
| `PnpmLock.ParsePnpmLock` | cli/aedo-cli/src/lib.rs:1256-1322 | on every sequence of lines the streaming reader gives the findings of the block-wise reading, in order |
| `PnpmLock.CutAppend` | cli/aedo-cli/src/lib.rs:1266-1291 | cutting a file at a block boundary cuts its blocks in two |
| `PnpmLock.NoLeak` | cli/aedo-cli/src/lib.rs:1256-1345 | the finding of a block depends on its own lines alone, whatever stands before and after: an integrity value never reaches another package |
| `PnpmRoundTrip.SplitPrintedKey` | cli/aedo-cli/src/lib.rs:1367-1382 | a printed key, with or without slash and peer suffix, splits into the full name and the version |
| `PnpmRoundTrip.ReadPrintedPackages` | cli/aedo-cli/src/lib.rs:1281-1345 | a `packages:` section as pnpm writes it reads back: bare, single and double quoted keys, a slash in front, peer suffixes, the integrity inline among other fields or in a block, other lines and blank lines between |
| `PnpmRoundTrip.ReadPrintedFile` | cli/aedo-cli/src/lib.rs:1256-1322 | a whole lockfile with other sections before and behind reads back field by field: namespace, name, version and integrity of each package, in order |
| `PnpmSbom.IndexHolds` | cli/aedo-cli/src/sbom.rs:867-898 | the reference, exact and canonical indexes hold exactly the accepted packages |
| `PnpmSbom.ResolveIsSearch` | cli/aedo-cli/src/sbom.rs:1771-1795 | index resolution is a search through the packages: by cleaned key, and only when none has it, by canonical key |
| `PnpmSbom.ResolvedDenotes` | cli/aedo-cli/src/sbom.rs:1771-1807 | a dependency resolves to the package whose key equals it up to outer slashes or, when there is none, to every package that differs in the peer suffix only |
| `PnpmSbom.LoadPnpmLock` | cli/aedo-cli/src/sbom.rs:788-955 | one component per key that splits into name and version, in key order, with namespace, name, version and integrity; an edge leads from a package to another iff a dependency of its snapshot denotes the other; the root points at what the importers denote or else at the packages nothing depends on; the graph is closed |
| `NodeModules.ResolveDependency` | cli/aedo-cli/src/sbom.rs:1727-1752 | the ancestor loop ends and computes the recursive search |
| `NodeModules.ResolvedIsDeepest` | cli/aedo-cli/src/sbom.rs:1727-1758 | for paths without an overlapping `/node_modules/node_modules/`: the result is the reference in the deepest enclosing base that holds the dependency, or none iff no base holds it |
| `NodeModules.SkippedBase` | cli/aedo-cli/src/sbom.rs:1754-1758 | behind the last such overlap the enclosing base is never searched |
| `NodeModules.ResolutionExact` | cli/aedo-cli/src/sbom.rs:1727-1758 | resolution is right for every dependency and every path map iff the path has no such overlap behind its first character |
| `References.SanitizeReference` | cli/aedo-cli/src/sbom.rs:2999-3023 | the flag loop computes: plain characters lower-cased, each run of others one dash, outer dashes removed |
| `References.SanitizeCollides` | cli/aedo-cli/src/sbom.rs:2999-3023 | sanitising is not injective: below every prefix `/@scope/name` and `/scope-name` become the same reference |
| `References.CollideIffRespelled` | cli/aedo-cli/src/sbom.rs:2999-3023 | two names get the same reference iff one can be respelled into the other by changing ASCII case, exchanging a whole run of other characters and a dash, and adding or removing outer dashes |
| `PackageLock.ReferencesDistinct` | cli/aedo-cli/src/sbom.rs:708-716 | the components of a lockfile have distinct references iff no installed path is such a respelling of another |
| `References.SanitizeIdempotent` | cli/aedo-cli/src/sbom.rs:2999-3023 | sanitising a reference again changes nothing |
| `LegacyNpm.Collector.Collect` | cli/aedo-cli/src/sbom.rs:1687-1718 | the recursion into the two shared maps adds exactly the node and its descendants, earlier components staying, and exactly their parent-child pairs |
| `LegacyNpm.Collector.CollectAll` | cli/aedo-cli/src/sbom.rs:1706-1715 | the same for a list of siblings |
| `LegacyNpm.AddFirstIsFirst` | cli/aedo-cli/src/sbom.rs:1698-1704 | the components recorded are those of the first node in pre-order for each reference |
| `LegacyNpm.LoadLegacy` | cli/aedo-cli/src/sbom.rs:767-786 | components are those of the first entry in pre-order for each reference, with the fields of the entry; the edges are exactly the pairs of an entry and an entry directly below it, and of the root and the top level; every component is reachable and the graph closed |
| `LegacyNpm.ScopedName` | cli/aedo-cli/src/sbom.rs:2939-2947 | `@s/n` gives the namespace `s` and the name `n` |
| `LegacyNpm.UnscopedName` | cli/aedo-cli/src/sbom.rs:2939-2947 | a name without at sign in front has no namespace |
| `LegacyNpm.LegacyConnected` | cli/aedo-cli/src/sbom.rs:767-786 | every component is reachable from the root |
| `LegacyNpm.LegacyClosed` | cli/aedo-cli/src/sbom.rs:767-786 | the graph is closed |
| `PackageLock.CollectComponents` | cli/aedo-cli/src/sbom.rs:697-716 | one component per installed path in path order with the version and integrity of its entry; the path map holds exactly the installed paths |
| `PackageLock.AddPackageEdges` | cli/aedo-cli/src/sbom.rs:731-752 | adds exactly the resolved dependencies of one package |
| `PackageLock.AddDeclaredEdges` | cli/aedo-cli/src/sbom.rs:718-752 | the edges are exactly the declared dependencies resolved from their package; those of packages outside `node_modules` belong to the root |
| `PackageLock.ConnectPackages` | cli/aedo-cli/src/sbom.rs:718-762 | declared edges, with the fallback iff the root has none; the graph is closed |
| `PackageLock.LoadPackageLock` | cli/aedo-cli/src/sbom.rs:697-765 | exactly the paths below `node_modules/` that end in a name give components, in path order, with the fields of their entries; edges are the declared dependencies as resolved, with the fallback iff the root has none; the graph is closed |
| `PackageLock.InstalledName` | cli/aedo-cli/src/sbom.rs:1760-1769 | a package installed as `n` below any directory or at the top is called `n` |
| `CargoIndex.BuildIndexes` | cli/aedo-cli/src/sbom.rs:1008-1039 | the three indexes hold: the last reference per key, and the references per name and version and per name in lockfile order |
| `CargoIndex.IndexesAgree` | cli/aedo-cli/src/sbom.rs:2904-2937 | resolution returns exactly the references of the packages that match by name, by version if given, and by source if also given (names without `@`, versions without a vertical bar, non-empty source) |
| `CargoIndex.ResolutionExact` | cli/aedo-cli/src/sbom.rs:2904-2937 | resolution agrees with a scan for every lockfile iff the dependency names no version or no source, or has no `@` in name or version, no vertical bar in version or source, and a non-empty source |
| `CargoIndex.UnambiguousKey` | cli/aedo-cli/src/sbom.rs:2866-2868 | the key of such a dependency is carried only by the packages it means, whatever the packages are called |
| `CargoIndex.ConfusedIsFound` | cli/aedo-cli/src/sbom.rs:2866-2868 | for every other dependency with version and source there is a package it is resolved to although it does not match |
| `CargoIndex.KeyInjective` | cli/aedo-cli/src/sbom.rs:2866-2868 | on such names and versions the printed key determines its parts, up to an empty source |
| `CargoIndex.ParsePrintedSpec` | cli/aedo-cli/src/sbom.rs:2877-2902 | parsing inverts printing `name`, `name version` and `name version (source)` |
| `CargoLock.RootIndex` | cli/aedo-cli/src/sbom.rs:982-998 | the root is the one local package with the manifest's name and version; none when there are several |
| `CargoLock.Components` | cli/aedo-cli/src/sbom.rs:1008-1039 | one component per package in lockfile order with its name, version and the integrity read from its checksum, if that can be read |
| `CargoLock.LoadCargoLock` | cli/aedo-cli/src/sbom.rs:957-1087 | the components are the packages at all indexes but the root's, in order and field by field; an edge leads from a reference to another iff a dependency string of the last package with the first resolves to the second; unambiguous dependencies resolve to exactly the packages they mean; root edges are those of the root package or else the fallback; the graph is closed |
| `CargoLock.ReferencesCollide` | cli/aedo-cli/src/sbom.rs:2849-2864 | packages share a reference iff names and versions are respellings of each other and the sources are both absent or have the same identifier |
| `CargoLock.DependenciesKept` | cli/aedo-cli/src/sbom.rs:1036-1037 | every package's own dependencies are used iff packages sharing a reference have the same ones |
| `CargoLock.BuildMetadataShares` | cli/aedo-cli/src/sbom.rs:2849-2864 | sharing is real: versions `v+x` and `v-x` of one package and source get the same reference |
| `Aggregation.MergeFinding` | cli/aedo-cli/src/lib.rs:702-721 | one finding is added, merged into its package, or refused on a different integrity value |
| `Aggregation.MergeInput` | cli/aedo-cli/src/lib.rs:696-728 | merging one input succeeds iff everything seen so far agrees |
| `Aggregation.AggregatePreflight` | cli/aedo-cli/src/lib.rs:696-728 | succeeds iff all present integrity values per package URL agree; then one finding per package URL, in their order, the first one seen with the agreed value |
| `Aggregation.AggregationOrderFree` | cli/aedo-cli/src/lib.rs:696-728 | success, the packages listed and their integrity values do not depend on the order of the findings |
| `Aggregation.DedupeFindings` | cli/aedo-cli/src/lib.rs:1788-1802 | one finding per package URL, in order, the first one seen with the fold of its integrity values |
| `Aggregation.FoldIsSurviving` | cli/aedo-cli/src/lib.rs:3500-3508 | the fold of pairwise merges, for every sequence of values: runs of one value and the different value that ends them cancel, and the value of an unended last run survives |
| `Aggregation.AgreedValueKept` | cli/aedo-cli/src/lib.rs:1788-1802 | when all present values agree the value is kept |
| `Aggregation.ConflictForgotten` | cli/aedo-cli/src/lib.rs:3500-3508 | the merge is not associative: after a, b, c with a conflict the result is c |
| `Enrichment.MergeFindings` | cli/aedo-cli/src/lib.rs:3959-3982 | succeeds iff the response lines up with the request; then only decisions change, each to the stricter one |
| `Enrichment.Gather` | cli/aedo-cli/src/lib.rs:2325-2340 | collects exactly the positions of the ecosystem, in order |
| `Enrichment.Scatter` | cli/aedo-cli/src/lib.rs:2345-2347 | writes each result to the position it came from and touches no other |
| `Enrichment.EnrichEcosystem` | cli/aedo-cli/src/lib.rs:2324-2348 | one round: fails iff the response does not answer what was asked; otherwise decisions of that ecosystem tightened, all else equal |
| `Enrichment.EnrichContainerScan` | cli/aedo-cli/src/lib.rs:2320-2355 | both rounds: fails iff one of the responses does not fit the original findings; keeps every position, coordinate and integrity, leaves unanswered findings untouched, sets each answered decision to the stricter of local and remote |
| `Enrichment.StricterIsLater` | cli/aedo-cli/src/lib.rs:3984-4002 | of two decisions the one later in the order allow, warn, fallback, approval, quarantine, policy violation, known malicious is kept |
| `Enrichment.ExitCodeMeans` | cli/aedo-cli/src/lib.rs:4050-4056 | the exit code is 1 iff some finding is not allowed (warn) or has one of the four blocking decisions (block) |
| `Enrichment.FailsBySeverity` | crates/aegiscudo-core/src/lib.rs:231-239 | failing is having at least severity 1 (warn) or 3 (block): the severity order refines both thresholds |
| `Enrichment.ExitCodeNeverLowered` | cli/aedo-cli/src/lib.rs:4050-4056 | tightening never lowers the exit code, under either threshold |
| `Enrichment.SbomDocument.ApplyResolvedDecisions` | cli/aedo-cli/src/sbom.rs:171-198 | all decisions are applied, or the document is unchanged, and which of the two depends on the decisions fitting the components |
| `Utf8.DecodeEncoded` | cli/aedo-cli/src/sbom.rs:560-561 | decoding the UTF-8 bytes of a string returns it |
| `Utf8.EncodeDecoded` | cli/aedo-cli/src/sbom.rs:560-561 | only the encoding of a text decodes to it |
| `PercentEncoding.PercentDecodeBytes` | cli/aedo-cli/src/sbom.rs:540-562 | the index loop computes the recursive decoding |
| `PercentEncoding.DecodeExact` | cli/aedo-cli/src/sbom.rs:540-562 | decoding to some bytes succeeds iff the input is a percent-encoding of them, where an escape may also hold a plus sign |
| `PercentEncoding.StandardExact` | cli/aedo-cli/src/sbom.rs:540-562 | the percent-encodings of section 2.1 of RFC 3986 are exactly what the decoder accepts when no percent sign is directly followed by a plus sign |
| `PercentEncoding.PercentDecodeInverts` | cli/aedo-cli/src/sbom.rs:540-562 | decoding inverts every percent-encoding that escapes at least `%`, in either case of hex digits (section 2.1 of RFC 3986) |
| `PercentEncoding.EscapeExact` | cli/aedo-cli/src/sbom.rs:546-555 | an escape reads as 16 times its first hexadecimal digit plus its second, in either case, or behind a plus sign as its one digit |
| `PercentEncoding.PercentDecodeExact` | cli/aedo-cli/src/sbom.rs:540-562 | a text decodes to another iff it is a percent-encoding of its UTF-8 form, plus signs in escapes included |
| `PercentEncoding.PlusIsAccepted` | cli/aedo-cli/src/sbom.rs:546-555 | `%+f` is no percent-encoding of anything, yet it decodes to byte 15 |
| `PackageUrl.SuffixIgnored` | cli/aedo-cli/src/sbom.rs:459-483 | appending any `?qualifiers#fragment` to any text not ending in whitespace changes neither the coordinate that is read nor whether one is read |
| `PackageUrl.ParsePrinted` | cli/aedo-cli/src/sbom.rs:459-511 | parsing a printed npm, PyPI, Cargo or Maven coordinate free of reserved characters returns it, multi-segment namespaces included |
| `PackageUrl.ParseEncoded` | cli/aedo-cli/src/sbom.rs:459-511 | whatever name, version and namespace segments hold, a URL with each of them percent-encoded is read back to them; the name loses outer whitespace and an npm namespace the at signs in front |
| `PackageUrl.ParseEncodedScope` | cli/aedo-cli/src/sbom.rs:489-507 | `pkg:npm/%40scope/name@version`, encoded in any way, gives the namespace `scope` |
| `PackageUrl.OtherTypesRefused` | cli/aedo-cli/src/sbom.rs:462-471 | only the types npm, pypi, cargo and maven are read |
| `PackageUrl.BlankVersion` | cli/aedo-cli/src/sbom.rs:484-489 | a blank version is not split off: the at sign stays in the path |
| `PackageUrl.DoubledSlashes` | cli/aedo-cli/src/sbom.rs:490-494 | empty path segments are skipped |
| `PackageUrl.PurlInjective` | packages/shared-types/src/index.ts:137-144 | two such coordinates with the same package URL are equal |
| `PypiName.Normalize` | cli/aedo-cli/src/lib.rs:1390-1407 | the flag-driven loop computes the "Normalized Names" rule of PEP 503 |
| `PypiName.Pep503Idempotent` | cli/aedo-cli/src/lib.rs:1384-1408 | normalising twice is normalising once |
| `PypiName.CollideIffVariants` | cli/aedo-cli/src/lib.rs:1384-1408 | two names collide iff one can be respelled into the other by changing ASCII case, the kind of a separator, or the length of a separator run |
| `PypiName.CaseCollides` | cli/aedo-cli/src/lib.rs:1390-1405 | names in upper and lower case collide, and no normalised name holds an upper-case letter |
| `PypiAgreement.CanonicalizePypiName` | crates/aegiscudo-protocol/src/lib.rs:140-160 | the protocol's loop computes the PEP 503 form of the slash-trimmed name without outer dashes, or refuses exactly the names with a backslash or an empty, `.` or `..` segment |
| `PypiAgreement.EmptyNameNeverReported` | crates/aegiscudo-protocol/src/lib.rs:140-145 | the empty name is refused as an unsafe path, so its own error is unreachable |
| `PypiAgreement.AgreeExactly` | crates/aegiscudo-protocol/src/lib.rs:140-160 | the command line and the protocol give the same name iff the input has no `[`, is a safe path, and its trimmed form neither starts nor ends with a slash or separator |
| `DockerReference.ParsePrintedImage` | cli/aedo-cli/src/sbom.rs:300-371 | parsing `namespace/name[:tag][@digest]` returns the parts of every well-formed reference with a tag or digest |
| `DockerReference.TagIsBehindLastSlash` | cli/aedo-cli/src/sbom.rs:341-361 | every accepted text has a tag iff its last colon in front of the digest stands behind every slash; the tag is the trimmed text behind that colon and holds neither slash nor colon |
| `DockerReference.UntaggedNeedsDigest` | cli/aedo-cli/src/sbom.rs:347-353 | a text with neither such a colon nor a digest is refused |
| `DockerReference.DigestIsChecked` | cli/aedo-cli/src/sbom.rs:306-316 | what follows the first at sign of an accepted text is its digest: `sha256:` and 64 lower-case hexadecimal digits |
| `DockerReference.NoBlankSegments` | cli/aedo-cli/src/sbom.rs:323-337 | blank segments are left out of the namespace and are never the name |
| `WorkspacePath.NormalizePath` | cli/aedo-cli/src/sbom.rs:2562-2608 | the component loop computes the lexical resolution |
| `WorkspacePath.ResolvedIsTidy` | cli/aedo-cli/src/sbom.rs:2575-2587 | `..` stays only as a leading run and never under a root |
| `WorkspacePath.ResolveRendered` | cli/aedo-cli/src/sbom.rs:2590-2607 | reading a rendered path gives it back |
| `WorkspacePath.NormalizeIdempotent` | cli/aedo-cli/src/sbom.rs:2562-2608 | normalising twice is normalising once |
| `WorkspacePath.NormalizeKeepsMeaning` | cli/aedo-cli/src/sbom.rs:2562-2608 | from every directory, the normalised path leads to the same place |
| `WorkspaceExclude.ExcludeSegments` | cli/aedo-cli/src/sbom.rs:2627-2632 | the string test for excludes without glob characters is component-list prefix, except that the relative exclude `.` matches only itself |
| `WorkspaceExclude.InsideExact` | cli/aedo-cli/src/sbom.rs:2562-2608 | when one normalised path lies inside another from every directory, read off their segments |
| `WorkspaceExclude.ExcludeExact` | cli/aedo-cli/src/sbom.rs:2610-2634 | the string test says whether the member lies inside the exclude from every directory iff the exclude ends in a name, or the member is absolute, or both are relative and climb equally far (for `.`: the member is `.` or climbs); on absolute paths it always does and equals component-list prefix |
| `WorkspaceExclude.ExcludeSound` | cli/aedo-cli/src/sbom.rs:2610-2634 | an exclude is handled rightly for every member iff it ends in a name |
| `WorkspaceExclude.ParentExcludeTooWide` | cli/aedo-cli/src/sbom.rs:2627-2632 | an exclude of parent steps only also excludes members that climb further and need not lie inside it |

## Left out

- RequirementFiles.Line: the text of requirement lines (continuations, comments, markers, hashes, editable project lookup) and path canonicalisation; lines come parsed and files are named canonically.
- The scan's copy of the requirements walk in `lib.rs` has the same structure without the hash field and is not modelled a second time; the same holds for its copies of `split_pnpm_key` and the PyPI name loop in `sbom.rs`.
- Deduplication of requirement entries by name and version in `sbom.rs` uses the merge of `Aggregation` and would only repeat it.
- MavenTree.LoadDependencyTree: the final conversion of the component map to a list; component fields are those of the coordinate.
- LegacyNpm.LoadLegacy: entries are given in the name order in which the lockfile's map is traversed.
- Constraints.Entry: `integrity` and `hash` are opaque values; parsing and base64 or hex decoding of hashes is not modelled.
- CargoLock.Components: the `source` property and the hash of a component and the reading of `Cargo.toml` manifests are not modelled; how a checksum is read is a parameter.
- WorkspaceExclude.ExcludeExact: glob excludes and Windows path prefixes are not modelled.
- Enrichment.EnrichContainerScan: the HTTP exchange and its configuration are inputs; failing to load a configuration is the same as an unavailable service.
- Sorting of components, timestamps, serial numbers, document names, licences and other fields of the two renderings.
- JSON, YAML, TOML and XML parsing, UUIDs, base64 and glob matching, which belong to libraries.
- `GitHubTagResolver`, which follows a tag object to its commit through a bounded number of requests, and `ExtensionScanBudget`, which counts files and bytes of a scan.
- `normalize_npm_name` and the registry paths of the protocol crate.
- Container image inspection, `syft`, `cosign` and `docker` processes, configuration files, authentication, `compliance.rs`, the VS Code signal tables, SARIF and text output, and the web application.
