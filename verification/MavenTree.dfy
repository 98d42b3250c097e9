/** Reading the output of `mvn dependency:tree` for the SBOM: the tree is rebuilt with a parent stack. */
module MavenTree {
  import opened Wrappers
  import opened Text
  import opened Coordinates
  import opened Graph
  import Sbom

  // ------------------------------------------------------------------ one line

  function Parts(coord: string): seq<string> {
    SplitN(coord, 7, ':')
  }

  function MavenCoordinate(group: string, artifact: string, version: string): Coordinate {
    Coordinate(Maven, artifact, Some(version), Some(group))
  }

  /** `group:artifact:type:version[:scope]` or `group:artifact:type:classifier:version:scope`. */
  function ParseCoordinate(coord: string): Option<Coordinate> {
    var parts := Parts(coord);
    if |parts| < 4 then None
    else
      var group, artifact := Trim(parts[0]), Trim(parts[1]);
      var version := if |parts| >= 6 then Trim(parts[4]) else Trim(parts[3]);
      if group == "" || artifact == "" || version == "" then None
      else Some(MavenCoordinate(group, artifact, version))
  }

  predicate HasClassifier(coord: string) {
    var parts := Parts(coord);
    |parts| >= 6 && Trim(parts[3]) != ""
  }

  predicate HasJarType(coord: string) {
    var parts := Parts(coord);
    |parts| > 2 && Trim(parts[2]) == "jar"
  }

  /** Drops log levels other than info, and the info prefix. */
  function NormalizeLine(raw: string): Option<string> {
    var t := TrimEnd(raw);
    if "[WARNING]" <= t || "[ERROR]" <= t || "[DEBUG]" <= t then None
    else if "[INFO]" <= t then
      var rest := t[|"[INFO]"|..];
      Some(if " " <= rest then rest[1..] else rest)
    else Some(t)
  }

  predicate IsNoise(line: string) {
    || line == "" || "BUILD" <= line || "--------" <= line || "Total time" <= line
    || "Finished at" <= line || "Scanning for projects" <= line || "--- " <= line
  }

  predicate IsBareCoordinate(line: string) {
    NoWhitespace(line) && ParseCoordinate(line).Some?
  }

  predicate IsConflictOmitted(text: string) {
    Contains(text, "omitted for conflict")
  }

  const BAR := "|  "
  const GAP := "   "
  const BRANCH := "+- "
  const CORNER := "\\- "

  type Depth = d: nat | d >= 1 witness 1

  /** Depth and text of a tree line whose first `segments` columns were already read. */
  function TreeEntryFrom(line: string, segments: nat): Option<(Depth, string)>
    decreases |line|
  {
    if BAR <= line || GAP <= line then TreeEntryFrom(line[3..], segments + 1)
    else if BRANCH <= line || CORNER <= line then Some((segments + 1, Trim(line[3..])))
    else None
  }

  function TreeEntry(line: string): Option<(Depth, string)> {
    TreeEntryFrom(line, 0)
  }

  method ReadTreeEntry(line: string) returns (r: Option<(Depth, string)>)
    ensures r == TreeEntry(line)
  {
    var depthSegments, remainder := 0, line;
    while true
      invariant TreeEntryFrom(remainder, depthSegments) == TreeEntry(line)
      decreases |remainder|
    {
      if BAR <= remainder {
        depthSegments, remainder := depthSegments + 1, remainder[3..];
        continue;
      }
      if GAP <= remainder {
        depthSegments, remainder := depthSegments + 1, remainder[3..];
        continue;
      }
      if BRANCH <= remainder {
        return Some((depthSegments + 1, Trim(remainder[3..])));
      }
      if CORNER <= remainder {
        return Some((depthSegments + 1, Trim(remainder[3..])));
      }
      return None;
    }
  }

  /** What one raw line says, independent of the reader's state. */
  datatype Event =
    | Nothing
    | Root(coordinate: Coordinate)
    | UnsupportedRoot
    | Entry(depth: Depth, coordinate: Coordinate)
    | UnsupportedEntry

  function ReadRootLine(text: string): Event {
    if !IsBareCoordinate(text) then Nothing
    else if !HasJarType(text) || HasClassifier(text) then UnsupportedRoot
    else Root(ParseCoordinate(text).value)
  }

  function ReadEntryLine(depth: Depth, text: string): Event {
    if IsConflictOmitted(text) then Nothing
    else if !HasJarType(text) || HasClassifier(text) then UnsupportedEntry
    else match ParseCoordinate(text)
      case None => Nothing
      case Some(c) => Entry(depth, c)
  }

  /** What a line says once its log mark is off. */
  function ReadContent(line: string): Event {
    if IsNoise(line) then Nothing
    else match TreeEntry(line)
      case None => ReadRootLine(Trim(line))
      case Some(entry) => ReadEntryLine(entry.0, entry.1)
  }

  function ReadLine(raw: string): Event {
    match NormalizeLine(raw)
    case None => Nothing
    case Some(line) => ReadContent(line)
  }

  // ----------------------------------------------------------- the SBOM reader

  datatype State = State(
    root: Option<Coordinate>,
    components: map<string, Coordinate>,
    edges: Edges<string>,
    stack: seq<string>)

  const EMPTY := State(None, map[], map[], [])

  /** Hangs a dependency at `depth` below the current path. */
  function Attach(s: State, depth: Depth, c: Coordinate): Result<State>
    requires s.root.Some?
  {
    var reference := Purl(c);
    if depth > |s.stack| then Err
    else
      var parent := if depth == 1 then Purl(s.root.value) else s.stack[depth - 1];
      Ok(State(
           s.root,
           if reference in s.components then s.components else s.components[reference := c],
           WithTargets(WithKey(s.edges, reference), parent, {reference}),
           s.stack[..depth] + [reference]))
  }

  /** The effect of one line on the reader's state; tree lines before the project line are skipped. */
  function Step(s: State, e: Event): Result<State> {
    match e
    case Nothing => Ok(s)
    case UnsupportedRoot => Err
    case Root(c) =>
      if s.root.Some? then Err
      else Ok(State(Some(c), s.components, s.edges[Purl(c) := {}], s.stack + [Purl(c)]))
    case UnsupportedEntry => if s.root.None? then Ok(s) else Err
    case Entry(depth, c) => if s.root.None? then Ok(s) else Attach(s, depth, c)
  }

  function Run(s: State, lines: seq<string>): Result<State>
    decreases |lines|
  {
    if lines == [] then Ok(s)
    else
      var s' :- Step(s, ReadLine(lines[0]));
      Run(s', lines[1..])
  }

  /** What the reader delivers: the root, the components by reference, and the edges. */
  function Load(lines: seq<string>): Result<State> {
    var s :- Run(EMPTY, lines);
    if s.root.None? then Err else Ok(s)
  }

  /** The reader's loop over the lines, with its four mutable collections. */
  method LoadDependencyTree(lines: seq<string>) returns (r: Result<State>)
    ensures r == Load(lines)
  {
    var root: Option<Coordinate> := None;
    var components: map<string, Coordinate> := map[];
    var edges: Edges<string> := map[];
    var stack: seq<string> := [];
    for i := 0 to |lines|
      invariant Run(EMPTY, lines) == Run(State(root, components, edges, stack), lines[i..])
    {
      assert lines[i..][1..] == lines[i + 1..];
      match ReadLine(lines[i]) {
        case Nothing =>
        case UnsupportedRoot =>
          return Err;
        case Root(c) =>
          if root.Some? { return Err; }
          edges := edges[Purl(c) := {}];
          stack := stack + [Purl(c)];
          root := Some(c);
        case UnsupportedEntry =>
          if root.Some? { return Err; }
        case Entry(depth, c) =>
          if root.Some? {
            var reference := Purl(c);
            if reference !in components {
              components := components[reference := c];
            }
            if reference !in edges {
              edges := edges[reference := {}];
            }
            if depth > |stack| { return Err; }
            var parent := if depth == 1 then Purl(root.value) else stack[depth - 1];
            if parent !in edges {
              edges := edges[parent := {}];
            }
            edges := edges[parent := edges[parent] + {reference}];
            stack := stack[..depth];
            stack := stack + [reference];
          }
      }
    }
    assert lines[|lines|..] == [];
    if root.None? { return Err; }
    return Ok(State(root, components, edges, stack));
  }

  // --------------------------------------------- what every run keeps, on any input

  /**
   The parent stack is a path of the graph from the root to the last dependency, every edge target
   is a component, every component has an entry and is reachable from the root.
   */
  ghost predicate GraphInv(root: string, refs: set<string>, edges: Edges<string>, stack: seq<string>) {
    && Path(edges, stack) && stack[0] == root
    && edges.Keys == refs + {root}
    && (forall a, b :: Edge(edges, a, b) ==> b in refs)
    && (forall k :: k in refs ==> Reachable(edges, root, k))
  }

  ghost predicate Inv(s: State) {
    && (s.root.None? ==> s == EMPTY)
    && (s.root.Some? ==> GraphInv(Purl(s.root.value), s.components.Keys, s.edges, s.stack))
    && (forall k :: k in s.components ==> Purl(s.components[k]) == k)
  }

  /** What hanging a dependency does to the edges. */
  lemma HangEdges(g: Edges<string>, parent: string, reference: string, h: Edges<string>)
    requires h == WithTargets(WithKey(g, reference), parent, {reference}) && parent in g
    ensures h.Keys == g.Keys + {reference}
    ensures forall x, y :: Edge(h, x, y) <==> Edge(g, x, y) || (x == parent && y == reference)
  {
  }

  lemma HangPath(g: Edges<string>, stack: seq<string>, depth: Depth, reference: string, h: Edges<string>)
    requires Path(g, stack) && depth <= |stack|
    requires forall x, y :: Edge(g, x, y) ==> Edge(h, x, y)
    requires Edge(h, stack[depth - 1], reference)
    ensures Path(h, stack[..depth] + [reference])
  {
    var p := stack[..depth] + [reference];
    forall i | 0 <= i < |p| - 1 ensures Edge(h, p[i], p[i + 1]) {
      if i < depth - 1 { assert Edge(g, stack[i], stack[i + 1]); }
    }
  }

  lemma StackHasEntries(root: string, refs: set<string>, edges: Edges<string>, stack: seq<string>, i: nat)
    requires GraphInv(root, refs, edges, stack) && i < |stack|
    ensures stack[i] in edges
  {
    if i > 0 { assert Edge(edges, stack[i - 1], stack[i - 1 + 1]); }
  }

  lemma HangKeepsGraph(root: string, refs: set<string>, g: Edges<string>, stack: seq<string>,
                       depth: Depth, reference: string, h: Edges<string>)
    requires GraphInv(root, refs, g, stack) && depth <= |stack|
    requires h == WithTargets(WithKey(g, reference), stack[depth - 1], {reference})
    ensures GraphInv(root, refs + {reference}, h, stack[..depth] + [reference])
  {
    StackHasEntries(root, refs, g, stack, depth - 1);
    HangEdges(g, stack[depth - 1], reference, h);
    HangPath(g, stack, depth, reference, h);
    assert Connects(h, stack[..depth] + [reference], root, reference);
    forall k | k in refs + {reference} ensures Reachable(h, root, k) {
      if k != reference { ReachableMonotone(g, h, root, k); }
    }
  }

  lemma AttachKeepsInv(s: State, depth: Depth, c: Coordinate)
    requires Inv(s) && s.root.Some? && Attach(s, depth, c).Ok?
    ensures Inv(Attach(s, depth, c).value)
    ensures Attach(s, depth, c).value.components.Keys == s.components.Keys + {Purl(c)}
  {
    var s' := Attach(s, depth, c).value;
    HangKeepsGraph(Purl(s.root.value), s.components.Keys, s.edges, s.stack, depth, Purl(c), s'.edges);
    assert s'.components.Keys == s.components.Keys + {Purl(c)};
  }

  lemma StepKeepsInv(s: State, e: Event)
    requires Inv(s) && Step(s, e).Ok?
    ensures Inv(Step(s, e).value)
  {
    match e
    case Entry(depth, c) => if s.root.Some? { AttachKeepsInv(s, depth, c); }
    case Root(c) =>
      assert Step(s, e).value.stack == [Purl(c)];
      assert Step(s, e).value.edges.Keys == {Purl(c)};
    case _ =>
  }

  lemma {:induction false} RunKeepsInv(s: State, lines: seq<string>)
    requires Inv(s) && Run(s, lines).Ok?
    ensures Inv(Run(s, lines).value)
    decreases |lines|
  {
    if lines != [] {
      StepKeepsInv(s, ReadLine(lines[0]));
      RunKeepsInv(Step(s, ReadLine(lines[0])).value, lines[1..]);
    }
  }

  /** Whatever the file holds, a delivered graph is closed and connected. */
  lemma LoadedGraph(lines: seq<string>)
    requires Load(lines).Ok?
    ensures Inv(Load(lines).value) && Load(lines).value.root.Some?
  {
    RunKeepsInv(EMPTY, lines);
  }

  /** In the form every loader hands on: the components of a delivered tree close its graph. */
  lemma LoadedIsClosed(lines: seq<string>, components: seq<Sbom.Component>)
    requires Load(lines).Ok? && Sbom.Refs(components) == Load(lines).value.components.Keys
    ensures Sbom.ClosedGraph(Purl(Load(lines).value.root.value), components, Load(lines).value.edges)
  {
    LoadedGraph(lines);
    var s := Load(lines).value;
    forall k, b | k in s.edges && b in s.edges[k] ensures b in s.components.Keys {
      assert Edge(s.edges, k, b);
    }
  }

  // ----------------------------------------------------- conflict-omitted lines

  /** A tree line that Maven marks as dropped in favour of another version. */
  predicate IsOmittedLine(raw: string) {
    match NormalizeLine(raw)
    case None => false
    case Some(line) => TreeEntry(line).Some? && IsConflictOmitted(TreeEntry(line).value.1)
  }

  function WithoutOmitted(lines: seq<string>): seq<string> {
    if lines == [] then []
    else (if IsOmittedLine(lines[0]) then [] else [lines[0]]) + WithoutOmitted(lines[1..])
  }

  /** Conflict-omitted lines, anywhere in any file, change nothing. */
  lemma {:induction false} OmittedLinesIgnored(s: State, lines: seq<string>)
    ensures Run(s, lines) == Run(s, WithoutOmitted(lines))
    decreases |lines|
  {
    if lines != [] {
      var rest := WithoutOmitted(lines[1..]);
      if IsOmittedLine(lines[0]) {
        assert WithoutOmitted(lines) == rest;
        assert ReadLine(lines[0]) == Nothing;
        OmittedLinesIgnored(s, lines[1..]);
      } else {
        assert WithoutOmitted(lines)[1..] == rest;
        if Step(s, ReadLine(lines[0])).Ok? {
          OmittedLinesIgnored(Step(s, ReadLine(lines[0])).value, lines[1..]);
        }
      }
    }
  }
}
