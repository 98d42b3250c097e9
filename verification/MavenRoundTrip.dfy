/**
 Printing a project's dependency tree the way Maven does and reading it back: the SBOM reader
 recovers the tree's parent-child relation, the flat reader its pre-order.
 */
module MavenRoundTrip {
  import opened Wrappers
  import opened Text
  import opened Coordinates
  import opened Graph
  import opened MavenTree

  datatype Dependency = Dependency(
    group: string, artifact: string, version: string, scope: string, children: seq<Dependency>)
  datatype Project = Project(group: string, artifact: string, version: string, children: seq<Dependency>)

  /** A non-empty text that can stand between the colons of a coordinate. */
  predicate Word(s: string) {
    s != "" && ':' !in s && NoWhitespace(s)
  }

  predicate WellFormed(d: Dependency) {
    && Word(d.group) && Word(d.artifact) && Word(d.version) && Word(d.scope)
    && forall c :: c in d.children ==> WellFormed(c)
  }

  predicate AllWellFormed(ts: seq<Dependency>) {
    forall t :: t in ts ==> WellFormed(t)
  }

  function DependencyText(d: Dependency): string {
    Join([d.group, d.artifact, "jar", d.version, d.scope], ':')
  }

  function ProjectText(p: Project): string {
    Join([p.group, p.artifact, "jar", p.version], ':')
  }

  predicate WellFormedProject(p: Project) {
    Word(p.group) && Word(p.artifact) && Word(p.version) && AllWellFormed(p.children)
  }

  function Ref(d: Dependency): string {
    Purl(MavenCoordinate(d.group, d.artifact, d.version))
  }

  function ProjectCoordinate(p: Project): Coordinate {
    MavenCoordinate(p.group, p.artifact, p.version)
  }

  // ----------------------------------------------------------------- the printer

  function Indent(bars: seq<bool>): string {
    if bars == [] then "" else (if bars[0] then "|  " else "   ") + Indent(bars[1..])
  }

  function Marker(last: bool): string {
    if last then "\\- " else "+- "
  }

  function PrintLine(bars: seq<bool>, last: bool, text: string): string {
    Indent(bars) + Marker(last) + text
  }

  function PrintForest(bars: seq<bool>, ts: seq<Dependency>): seq<string>
    decreases ts
  {
    if ts == [] then []
    else
      var last := |ts| == 1;
      [PrintLine(bars, last, DependencyText(ts[0]))]
      + PrintForest(bars + [!last], ts[0].children)
      + PrintForest(bars, ts[1..])
  }

  function PrintProject(p: Project): seq<string> {
    [ProjectText(p)] + PrintForest([], p.children)
  }

  // ------------------------------------------------------ the relation it encodes

  function ForestEdges(parent: string, ts: seq<Dependency>): set<(string, string)>
    decreases ts
  {
    if ts == [] then {}
    else {(parent, Ref(ts[0]))} + ForestEdges(Ref(ts[0]), ts[0].children) + ForestEdges(parent, ts[1..])
  }

  function PreOrder(ts: seq<Dependency>): seq<string>
    decreases ts
  {
    if ts == [] then []
    else [Ref(ts[0])] + PreOrder(ts[0].children) + PreOrder(ts[1..])
  }

  function Elements(s: seq<string>): set<string> {
    set x | x in s
  }

  // -------------------------------------------------------- reading back one line

  lemma {:induction false} JoinWords(parts: seq<string>)
    requires parts != [] && parts[0] != "" && forall i :: 0 <= i < |parts| ==> Word(parts[i])
    ensures var t := Join(parts, ':'); t != "" && NoWhitespace(t) && t[0] == parts[0][0]
  {
    if |parts| > 1 { JoinWords(parts[1..]); }
  }

  lemma WordsText(parts: seq<string>)
    requires 0 < |parts| <= 7 && parts[0] != "" && forall i :: 0 <= i < |parts| ==> Word(parts[i])
    ensures Parts(Join(parts, ':')) == parts
    ensures var t := Join(parts, ':'); t != "" && NoWhitespace(t) && t[0] == parts[0][0]
  {
    JoinWords(parts);
    SplitNJoin(parts, 7, ':');
  }

  lemma NotOmitted(t: string)
    requires NoWhitespace(t)
    ensures !IsConflictOmitted(t)
  {
    assert "omitted for conflict"[7] == ' ';
    ContainsNeedsAll(t, "omitted for conflict", ' ');
  }

  lemma CoordinateWords(group: string, artifact: string, version: string, tail: seq<string>, parts: seq<string>)
    requires Word(group) && Word(artifact) && Word(version)
    requires tail == [] || (|tail| == 1 && Word(tail[0]))
    requires parts == [group, artifact, "jar", version] + tail
    ensures parts[0] != "" && forall i :: 0 <= i < |parts| ==> Word(parts[i])
  {
    assert Word("jar");
  }

  /** A printed coordinate is read back, whether or not it carries a scope. */
  lemma CoordinateText(t: string, group: string, artifact: string, version: string, tail: seq<string>)
    requires Word(group) && Word(artifact) && Word(version)
    requires tail == [] || (|tail| == 1 && Word(tail[0]))
    requires t == Join([group, artifact, "jar", version] + tail, ':')
    ensures ParseCoordinate(t) == Some(MavenCoordinate(group, artifact, version))
    ensures HasJarType(t) && !HasClassifier(t) && !IsConflictOmitted(t)
    ensures t != "" && NoWhitespace(t) && Trim(t) == t && TrimEnd(t) == t && t[0] == group[0]
  {
    var parts := [group, artifact, "jar", version] + tail;
    CoordinateWords(group, artifact, version, tail, parts);
    WordsText(parts);
    NotOmitted(t);
    TrimNothing(t);
    TrimNothing(group);
    TrimNothing(artifact);
    TrimNothing("jar");
    TrimNothing(version);
  }

  lemma ColumnRead(column: string, rest: string, segments: nat)
    requires column == BAR || column == GAP
    ensures TreeEntryFrom(column + rest, segments) == TreeEntryFrom(rest, segments + 1)
  {
    assert (column + rest)[..3] == column && (column + rest)[3..] == rest;
  }

  lemma {:induction false} IndentRead(bars: seq<bool>, rest: string, segments: nat)
    ensures TreeEntryFrom(Indent(bars) + rest, segments) == TreeEntryFrom(rest, segments + |bars|)
  {
    if bars == [] {
      assert Indent(bars) + rest == rest;
    } else {
      var column, tail := if bars[0] then BAR else GAP, Indent(bars[1..]) + rest;
      assert Indent(bars) + rest == column + tail;
      ColumnRead(column, tail, segments);
      IndentRead(bars[1..], rest, segments + 1);
    }
  }

  lemma PrintedEntry(bars: seq<bool>, last: bool, text: string)
    requires Trim(text) == text
    ensures TreeEntry(PrintLine(bars, last, text)) == Some((|bars| + 1, text))
  {
    var rest := Marker(last) + text;
    assert PrintLine(bars, last, text) == Indent(bars) + rest;
    IndentRead(bars, rest, 0);
    assert rest[..3] == Marker(last) && rest[3..] == text;
    assert rest[0] == (if last then '\\' else '+');
  }

  lemma PrintedStart(bars: seq<bool>, last: bool, text: string)
    ensures var line := PrintLine(bars, last, text); |line| >= 3 && line[0] in {'|', ' ', '+', '\\'}
  {
    if bars == [] {
      assert PrintLine(bars, last, text)[0] == Marker(last)[0];
    } else {
      assert PrintLine(bars, last, text)[0] == (if bars[0] then BAR else GAP)[0];
    }
  }

  lemma PrintedLineKept(bars: seq<bool>, last: bool, text: string)
    requires text != "" && !IsWhitespace(text[|text| - 1])
    ensures var line := PrintLine(bars, last, text); NormalizeLine(line) == Some(line) && !IsNoise(line)
  {
    var line := PrintLine(bars, last, text);
    PrintedStart(bars, last, text);
    assert line[|line| - 1] == text[|text| - 1];
    assert TrimEnd(line) == line;
  }

  /** A printed dependency line is read one level below its indentation. */
  lemma ReadPrinted(bars: seq<bool>, last: bool, d: Dependency)
    requires WellFormed(d)
    ensures ReadLine(PrintLine(bars, last, DependencyText(d)))
         == Entry(|bars| + 1, MavenCoordinate(d.group, d.artifact, d.version))
  {
    var text := DependencyText(d);
    assert [d.group, d.artifact, "jar", d.version] + [d.scope] == [d.group, d.artifact, "jar", d.version, d.scope];
    CoordinateText(text, d.group, d.artifact, d.version, [d.scope]);
    PrintedLineKept(bars, last, text);
    PrintedEntry(bars, last, text);
  }

  // ------------------------------------------------------ reading back the project line

  /** The group starts like a line of the build log. */
  predicate LogLike(group: string) {
    || "[WARNING]" <= group || "[ERROR]" <= group || "[DEBUG]" <= group || "[INFO]" <= group
    || "BUILD" <= group || "--------" <= group
  }

  /** The group as the readers see it: they cut off the mark of an information line. */
  function Shown(group: string): string {
    if "[INFO]" <= group then group[6..] else group
  }

  predicate IsLogNoise(group: string) {
    "BUILD" <= group || "--------" <= group
  }

  predicate IsOtherLevel(group: string) {
    "[WARNING]" <= group || "[ERROR]" <= group || "[DEBUG]" <= group
  }

  /** The SBOM reader takes the project line for one. */
  predicate RootSeen(group: string) {
    !IsOtherLevel(group) && !IsLogNoise(Shown(group)) && Shown(group) != ""
  }

  /** What follows the group in the project line. */
  function Behind(artifact: string, version: string): string {
    Join([artifact, "jar", version], ':')
  }

  lemma ProjectLine(group: string, artifact: string, version: string)
    ensures Join([group, artifact, "jar", version], ':') == group + [':'] + Behind(artifact, version)
  {
    assert [group, artifact, "jar", version][1..] == [artifact, "jar", version];
  }

  lemma PrefixOfGroup(prefix: string, group: string, rest: string)
    requires ':' !in prefix
    ensures prefix <= group + [':'] + rest <==> prefix <= group
  {
    var t := group + [':'] + rest;
    assert t[|group|] == ':';
    if |prefix| <= |group| { assert t[..|prefix|] == group[..|prefix|]; }
  }

  /** A line with an empty group is no coordinate. */
  lemma EmptyGroup(artifact: string, version: string, tail: seq<string>)
    requires Word(artifact) && Word(version) && (tail == [] || (|tail| == 1 && Word(tail[0])))
    ensures ParseCoordinate(Join(["", artifact, "jar", version] + tail, ':')) == None
  {
    var parts := ["", artifact, "jar", version] + tail;
    assert forall i :: 0 <= i < |parts| ==> ':' !in parts[i];
    SplitNJoin(parts, 7, ':');
  }

  lemma ShownIsRest(group: string, rest: string, t: string, line: string)
    requires t == group + [':'] + rest && line == Shown(group) + [':'] + rest && NoWhitespace(t)
    ensures line == (if "[INFO]" <= t then t[6..] else t) && NoWhitespace(line) && line != ""
  {
    PrefixOfGroup("[INFO]", group, rest);
    if "[INFO]" <= group {
      assert t[6..] == line;
      assert forall i :: 0 <= i < |line| ==> line[i] == t[6 + i];
    }
  }

  lemma ShownLine(group: string, artifact: string, version: string, t: string, line: string)
    requires Word(group) && Word(artifact) && Word(version)
    requires t == Join([group, artifact, "jar", version], ':')
    requires line == Join([Shown(group), artifact, "jar", version], ':')
    ensures NoWhitespace(t) && TrimEnd(t) == t
    ensures NoWhitespace(line) && line != "" && Trim(line) == line && line == if "[INFO]" <= t then t[6..] else t
  {
    assert [group, artifact, "jar", version] + [] == [group, artifact, "jar", version];
    CoordinateText(t, group, artifact, version, []);
    ProjectLine(group, artifact, version);
    ProjectLine(Shown(group), artifact, version);
    ShownIsRest(group, Behind(artifact, version), t, line);
    TrimNothing(line);
  }

  /** What is left of a group may be empty; then the line is no coordinate. */
  lemma PartialGroup(t: string, group: string, artifact: string, version: string, tail: seq<string>)
    requires NoWhitespace(group) && ':' !in group && Word(artifact) && Word(version)
    requires tail == [] || (|tail| == 1 && Word(tail[0]))
    requires t == Join([group, artifact, "jar", version] + tail, ':')
    ensures ParseCoordinate(t) == if group == "" then None else Some(MavenCoordinate(group, artifact, version))
    ensures group != "" ==> HasJarType(t) && !HasClassifier(t)
  {
    if group == "" {
      EmptyGroup(artifact, version, tail);
    } else {
      CoordinateText(t, group, artifact, version, tail);
    }
  }

  lemma NoiseOf(shown: string, rest: string, line: string)
    requires line == shown + [':'] + rest && NoWhitespace(line)
    ensures IsNoise(line) <==> IsLogNoise(shown)
    ensures TreeEntry(line) == None
  {
    WordsAreNotPrefixed(line);
    PrefixOfGroup("BUILD", shown, rest);
    PrefixOfGroup("--------", shown, rest);
  }

  lemma LevelOf(group: string, rest: string, t: string, line: string)
    requires t == group + [':'] + rest && TrimEnd(t) == t
    requires NoWhitespace(line) && line == if "[INFO]" <= t then t[6..] else t
    ensures NormalizeLine(t) == if IsOtherLevel(group) then None else Some(line)
  {
    PrefixOfGroup("[WARNING]", group, rest);
    PrefixOfGroup("[ERROR]", group, rest);
    PrefixOfGroup("[DEBUG]", group, rest);
    assert line != "" ==> line[0] != ' ';
  }

  lemma ReadShown(t: string, line: string, level: bool, noise: bool, c: Option<Coordinate>)
    requires NormalizeLine(t) == (if level then None else Some(line))
    requires IsNoise(line) == noise && TreeEntry(line) == None && Trim(line) == line && NoWhitespace(line)
    requires ParseCoordinate(line) == c && (c.Some? ==> HasJarType(line) && !HasClassifier(line))
    ensures ReadLine(t) == if !level && !noise && c.Some? then Root(c.value) else Nothing
  {
  }

  /** What the SBOM reader makes of any project line. */
  lemma ReadProject(p: Project)
    requires WellFormedProject(p)
    ensures ReadLine(ProjectText(p))
         == if RootSeen(p.group) then Root(MavenCoordinate(Shown(p.group), p.artifact, p.version)) else Nothing
  {
    var shown, rest := Shown(p.group), Behind(p.artifact, p.version);
    var t, line := ProjectText(p), Join([shown, p.artifact, "jar", p.version], ':');
    ShownLine(p.group, p.artifact, p.version, t, line);
    ProjectLine(p.group, p.artifact, p.version);
    ProjectLine(shown, p.artifact, p.version);
    LevelOf(p.group, rest, t, line);
    NoiseOf(shown, rest, line);
    assert [shown, p.artifact, "jar", p.version] + [] == [shown, p.artifact, "jar", p.version];
    PartialGroup(line, shown, p.artifact, p.version, []);
    ReadShown(t, line, IsOtherLevel(p.group), IsLogNoise(shown), ParseCoordinate(line));
  }

  /** A text without whitespace starts with none of the prefixes that hold a space. */
  lemma WordsAreNotPrefixed(t: string)
    requires NoWhitespace(t)
    ensures !("Total time" <= t) && !("Finished at" <= t) && !("Scanning for projects" <= t) && !("--- " <= t)
    ensures !(BAR <= t) && !(GAP <= t) && !(BRANCH <= t) && !(CORNER <= t)
  {
    assert "Total time"[5] == ' ' && "Finished at"[8] == ' ' && "Scanning for projects"[8] == ' ' && "--- "[3] == ' ';
    assert BAR[2] == ' ' && GAP[2] == ' ' && BRANCH[2] == ' ' && CORNER[2] == ' ';
  }

  // ------------------------------------------------------------ reading back a tree

  function NodeEvent(depth: nat, d: Dependency): Event {
    Entry(depth + 1, MavenCoordinate(d.group, d.artifact, d.version))
  }

  /** Printed lines without their text: what each of them says. */
  function ForestEvents(depth: nat, ts: seq<Dependency>): seq<Event>
    decreases ts
  {
    if ts == [] then []
    else
      [NodeEvent(depth, ts[0])]
      + ForestEvents(depth + 1, ts[0].children)
      + ForestEvents(depth, ts[1..])
  }

  function ReadLines(lines: seq<string>): seq<Event> {
    if lines == [] then [] else [ReadLine(lines[0])] + ReadLines(lines[1..])
  }

  function RunEvents(s: State, es: seq<Event>): Result<State>
    decreases |es|
  {
    if es == [] then Ok(s)
    else
      var s' :- Step(s, es[0]);
      RunEvents(s', es[1..])
  }

  lemma {:induction false} RunReads(s: State, lines: seq<string>)
    ensures Run(s, lines) == RunEvents(s, ReadLines(lines))
    decreases |lines|
  {
    if lines != [] {
      var e, rest := ReadLine(lines[0]), ReadLines(lines[1..]);
      assert ReadLines(lines) == [e] + rest && ([e] + rest)[1..] == rest;
      if Step(s, e).Ok? { RunReads(Step(s, e).value, lines[1..]); }
    }
  }

  lemma {:induction false} ReadLinesAppend(a: seq<string>, b: seq<string>)
    ensures ReadLines(a + b) == ReadLines(a) + ReadLines(b)
  {
    if a == [] {
      assert a + b == b;
    } else {
      assert (a + b)[1..] == a[1..] + b;
      ReadLinesAppend(a[1..], b);
    }
  }

  lemma {:induction false} ReadPrintedForest(bars: seq<bool>, ts: seq<Dependency>)
    requires AllWellFormed(ts)
    ensures ReadLines(PrintForest(bars, ts)) == ForestEvents(|bars|, ts)
    decreases ts
  {
    if ts != [] {
      var last := |ts| == 1;
      var line := PrintLine(bars, last, DependencyText(ts[0]));
      var below, after := PrintForest(bars + [!last], ts[0].children), PrintForest(bars, ts[1..]);
      ReadPrinted(bars, last, ts[0]);
      ReadPrintedForest(bars + [!last], ts[0].children);
      ReadPrintedForest(bars, ts[1..]);
      ReadLinesAppend([line] + below, after);
      ReadLinesAppend([line], below);
      assert ReadLines([line]) == [ReadLine(line)] + ReadLines([]);
    }
  }

  lemma {:induction false} RunAppend(s: State, a: seq<Event>, b: seq<Event>)
    requires RunEvents(s, a).Ok?
    ensures RunEvents(s, a + b) == RunEvents(RunEvents(s, a).value, b)
    decreases |a|
  {
    if a == [] {
      assert a + b == b;
    } else {
      assert (a + b)[1..] == a[1..] + b;
      RunAppend(Step(s, a[0]).value, a[1..], b);
    }
  }

  lemma RunCons(s: State, e: Event, rest: seq<Event>, s': State)
    requires Step(s, e) == Ok(s')
    ensures RunEvents(s, [e] + rest) == RunEvents(s', rest)
  {
    assert ([e] + rest)[1..] == rest;
  }

  /** `s'` is `s` after a forest was hung below `parent`, with the path to `parent` still on the stack. */
  ghost predicate Hung(s: State, depth: nat, ts: seq<Dependency>, s': State) {
    && depth < |s.stack| && depth < |s'.stack|
    && s'.root == s.root && s'.stack[..depth + 1] == s.stack[..depth + 1]
    && s'.components.Keys == s.components.Keys + Elements(PreOrder(ts))
    && EdgePairs(s'.edges) == EdgePairs(s.edges) + ForestEdges(s.stack[depth], ts)
  }

  lemma PairsWithEdge(g: Edges<string>, a: string, b: string)
    ensures EdgePairs(WithTargets(WithKey(g, b), a, {b})) == EdgePairs(g) + {(a, b)}
  {
    PairsWithKey(g, b);
    PairsWithTargets(WithKey(g, b), a, {b});
    assert (set y | y in {b} :: (a, y)) == {(a, b)};
  }

  lemma AttachPairs(s: State, depth: nat, c: Coordinate)
    requires Inv(s) && s.root.Some? && depth < |s.stack|
    ensures var r := Attach(s, depth + 1, c);
            && r.Ok? && Inv(r.value) && r.value.root == s.root
            && r.value.stack == s.stack[..depth + 1] + [Purl(c)]
            && r.value.components.Keys == s.components.Keys + {Purl(c)}
            && EdgePairs(r.value.edges) == EdgePairs(s.edges) + {(s.stack[depth], Purl(c))}
  {
    AttachKeepsInv(s, depth + 1, c);
    PairsWithEdge(s.edges, s.stack[depth], Purl(c));
  }

  lemma {:induction false} LoadForest(s: State, depth: nat, ts: seq<Dependency>)
    requires Inv(s) && s.root.Some? && depth < |s.stack|
    ensures var r := RunEvents(s, ForestEvents(depth, ts)); r.Ok? && Inv(r.value) && Hung(s, depth, ts, r.value)
    decreases ts
  {
    if ts != [] {
      var below, after := ForestEvents(depth + 1, ts[0].children), ForestEvents(depth, ts[1..]);
      var e, s1 := LoadNode(s, depth, ts[0]);
      LoadForest(s1, depth + 1, ts[0].children);
      var s2 := RunEvents(s1, below).value;
      StackBelow(s, s1, s2, depth, ts[0].children, Ref(ts[0]));
      LoadForest(s2, depth, ts[1..]);
      RunAppend(s1, below, after);
      RunCons(s, e, below + after, s1);
      ForestEventsCons(depth, ts);
      HungTogether(s, s1, s2, RunEvents(s2, after).value, depth, ts);
    }
  }

  lemma ForestEventsCons(depth: nat, ts: seq<Dependency>)
    requires ts != []
    ensures ForestEvents(depth, ts)
         == [NodeEvent(depth, ts[0])] + (ForestEvents(depth + 1, ts[0].children) + ForestEvents(depth, ts[1..]))
  {
  }

  lemma LoadNode(s: State, depth: nat, t: Dependency) returns (e: Event, s1: State)
    requires Inv(s) && s.root.Some? && depth < |s.stack|
    ensures e == NodeEvent(depth, t) && Step(s, e) == Ok(s1)
    ensures Inv(s1) && s1.root == s.root && s1.stack == s.stack[..depth + 1] + [Ref(t)]
    ensures s1.components.Keys == s.components.Keys + {Ref(t)}
    ensures EdgePairs(s1.edges) == EdgePairs(s.edges) + {(s.stack[depth], Ref(t))}
  {
    e := NodeEvent(depth, t);
    AttachPairs(s, depth, e.coordinate);
    s1 := Attach(s, depth + 1, e.coordinate).value;
  }

  lemma StackBelow(s: State, s1: State, s2: State, depth: nat, ts: seq<Dependency>, reference: string)
    requires depth < |s.stack| && s1.stack == s.stack[..depth + 1] + [reference]
    requires Hung(s1, depth + 1, ts, s2)
    ensures s2.stack[..depth + 1] == s.stack[..depth + 1] && s2.stack[depth] == s.stack[depth]
  {
    assert s2.stack[..depth + 1] == s2.stack[..depth + 2][..depth + 1];
    assert s2.stack[depth] == s2.stack[..depth + 1][depth];
  }

  lemma PreOrderElements(ts: seq<Dependency>)
    requires ts != []
    ensures Elements(PreOrder(ts)) == {Ref(ts[0])} + Elements(PreOrder(ts[0].children)) + Elements(PreOrder(ts[1..]))
  {
    ElementsOfThree([Ref(ts[0])], PreOrder(ts[0].children), PreOrder(ts[1..]));
  }

  lemma ElementsOfThree(a: seq<string>, b: seq<string>, c: seq<string>)
    ensures Elements(a + b + c) == Elements(a) + Elements(b) + Elements(c)
  {
  }

  lemma HungTogether(s: State, s1: State, s2: State, s3: State, depth: nat, ts: seq<Dependency>)
    requires ts != [] && depth < |s.stack|
    requires s1.root == s.root && s1.stack == s.stack[..depth + 1] + [Ref(ts[0])]
    requires s1.components.Keys == s.components.Keys + {Ref(ts[0])}
    requires EdgePairs(s1.edges) == EdgePairs(s.edges) + {(s.stack[depth], Ref(ts[0]))}
    requires Hung(s1, depth + 1, ts[0].children, s2)
    requires s2.stack[..depth + 1] == s.stack[..depth + 1]
    requires Hung(s2, depth, ts[1..], s3)
    ensures Hung(s, depth, ts, s3)
  {
    assert s2.stack[depth] == s2.stack[..depth + 1][depth] == s.stack[depth];
    PreOrderElements(ts);
  }

  lemma {:induction false} ForestIsEntries(depth: nat, ts: seq<Dependency>)
    ensures forall e :: e in ForestEvents(depth, ts) ==> e.Entry?
    decreases ts
  {
    if ts != [] {
      ForestIsEntries(depth + 1, ts[0].children);
      ForestIsEntries(depth, ts[1..]);
    }
  }

  /** Tree lines before the project line are skipped. */
  lemma {:induction false} RunWithoutRoot(es: seq<Event>)
    requires forall e :: e in es ==> e.Entry?
    ensures RunEvents(EMPTY, es) == Ok(EMPTY)
  {
    if es != [] {
      assert es[0] in es && forall e :: e in es[1..] ==> e in es;
      RunWithoutRoot(es[1..]);
    }
  }

  lemma RunRooted(c: Coordinate, ts: seq<Dependency>)
    ensures var r := RunEvents(EMPTY, [Root(c)] + ForestEvents(0, ts));
            && r.Ok? && r.value.root == Some(c)
            && r.value.components.Keys == Elements(PreOrder(ts))
            && EdgePairs(r.value.edges) == ForestEdges(Purl(c), ts)
  {
    var s := Step(EMPTY, Root(c)).value;
    assert s.stack == [Purl(c)];
    assert EdgePairs(s.edges) == {};
    LoadForest(s, 0, ts);
    RunCons(EMPTY, Root(c), ForestEvents(0, ts), s);
  }

  lemma RunUnrooted(ts: seq<Dependency>)
    ensures RunEvents(EMPTY, [Nothing] + ForestEvents(0, ts)) == Ok(EMPTY)
  {
    ForestIsEntries(0, ts);
    RunWithoutRoot(ForestEvents(0, ts));
    RunCons(EMPTY, Nothing, ForestEvents(0, ts), EMPTY);
  }

  lemma LoadReads(lines: seq<string>)
    ensures Load(lines) == match RunEvents(EMPTY, ReadLines(lines))
                           case Err => Err
                           case Ok(s) => if s.root.None? then Err else Ok(s)
  {
    RunReads(EMPTY, lines);
  }

  /** What loading any printed project gives. */
  ghost predicate Delivers(r: Result<State>, root: Coordinate, ts: seq<Dependency>) {
    && r.Ok? && r.value.root == Some(root)
    && r.value.components.Keys == Elements(PreOrder(ts))
    && EdgePairs(r.value.edges) == ForestEdges(Purl(root), ts)
  }

  lemma LoadPrinted(p: Project)
    requires WellFormedProject(p)
    ensures RootSeen(p.group) ==>
              Delivers(Load(PrintProject(p)), MavenCoordinate(Shown(p.group), p.artifact, p.version), p.children)
    ensures !RootSeen(p.group) ==> Load(PrintProject(p)) == Err
  {
    ReadProject(p);
    ReadPrintedForest([], p.children);
    ReadLinesAppend([ProjectText(p)], PrintForest([], p.children));
    assert ReadLines([ProjectText(p)]) == [ReadLine(ProjectText(p))] + ReadLines([]);
    LoadReads(PrintProject(p));
    if RootSeen(p.group) {
      RunRooted(MavenCoordinate(Shown(p.group), p.artifact, p.version), p.children);
    } else {
      RunUnrooted(p.children);
    }
  }

  /**
   Round trip: loading a printed project yields its root, exactly its dependencies as components, and
   exactly its parent-child relation as edges, iff its group does not start like a line of the log.
   */
  lemma LoadPrintedProject(p: Project)
    requires WellFormedProject(p)
    ensures Delivers(Load(PrintProject(p)), ProjectCoordinate(p), p.children) <==> !LogLike(p.group)
  {
    LoadPrinted(p);
    assert LogLike(p.group) && RootSeen(p.group) ==> |Shown(p.group)| < |p.group|;
  }

  /** A project whose group starts like the build summary cannot be loaded at all. */
  lemma BuildProjectLost(p: Project, rest: string)
    requires WellFormedProject(p) && p.group == "BUILD" + rest
    ensures Load(PrintProject(p)) == Err
  {
    LoadPrinted(p);
    assert p.group[0] == 'B' && p.group[..5] == "BUILD";
  }

  lemma InfoGroup(group: string, rest: string)
    requires group == "[INFO]" + rest
    ensures Shown(group) == rest && !IsOtherLevel(group)
  {
    assert group[..6] == "[INFO]" && group[6..] == rest && group[1] == 'I';
  }

  /** A group that starts like an information line is cut short. */
  lemma InfoProjectMisread(p: Project, rest: string)
    requires WellFormedProject(p) && p.group == "[INFO]" + rest && rest != "" && !IsLogNoise(rest)
    ensures Delivers(Load(PrintProject(p)), MavenCoordinate(rest, p.artifact, p.version), p.children)
  {
    InfoGroup(p.group, rest);
    LoadPrinted(p);
  }
}
