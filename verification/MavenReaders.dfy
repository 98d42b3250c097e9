/**
 Verbose dependency trees, in which Maven also prints the dependencies that lost a version conflict,
 and when the two readers of such trees report the same packages.
 */
module MavenReaders {
  import opened Wrappers
  import opened Text
  import opened Coordinates
  import opened MavenTree
  import opened MavenRoundTrip
  import opened MavenFlatReader

  datatype Node =
    | Used(group: string, artifact: string, version: string, scope: string, children: seq<Node>)
    | Omitted(group: string, artifact: string, version: string, scope: string, winner: string)

  predicate WellFormedNode(n: Node) {
    && Word(n.group) && Word(n.artifact) && Word(n.version) && Word(n.scope)
    && (n.Omitted? ==> Word(n.winner))
    && (n.Used? ==> forall c :: c in n.children ==> WellFormedNode(c))
  }

  predicate AllNodesWellFormed(ns: seq<Node>) {
    forall n :: n in ns ==> WellFormedNode(n)
  }

  // ------------------------------------------------------------- omitted dependencies

  /** The text Maven prints in verbose mode for a dependency that lost a version conflict. */
  function OmittedParts(group: string, artifact: string, version: string, scope: string, winner: string): seq<string> {
    ["(" + group, artifact, "jar", version, scope + " - " + "omitted for conflict" + " with " + winner + ")"]
  }

  function OmittedText(group: string, artifact: string, version: string, scope: string, winner: string): string {
    Join(OmittedParts(group, artifact, version, scope, winner), ':')
  }

  lemma {:induction false} JoinLast(parts: seq<string>, c: char) returns (pre: string)
    requires parts != []
    ensures Join(parts, c) == pre + parts[|parts| - 1]
    ensures |parts| > 1 ==> parts[0] <= pre
  {
    if |parts| == 1 {
      pre := "";
    } else {
      pre := JoinLast(parts[1..], c);
      pre := parts[0] + [c] + pre;
    }
  }

  lemma ContainsMiddle(a: string, pattern: string, b: string)
    ensures Contains(a + pattern + b, pattern)
  {
    assert OccursAt(a + pattern + b, pattern, |a|);
  }

  lemma OmittedPartsShape(parts: seq<string>, before: string, note: string, after: string)
    requires 1 < |parts| <= 7 && parts[0] != "" && parts[|parts| - 1] == before + note + after
    requires forall i :: 0 <= i < |parts| ==> ':' !in parts[i]
    ensures Parts(Join(parts, ':')) == parts
    ensures Contains(Join(parts, ':'), note)
    ensures var t := Join(parts, ':');
            t != "" && t[0] == parts[0][0] && (after != "" ==> t[|t| - 1] == after[|after| - 1])
  {
    SplitNJoin(parts, 7, ':');
    var pre := JoinLast(parts, ':');
    TextAround(Join(parts, ':'), parts[0], pre, before, note, after);
  }

  lemma TextAround(t: string, head: string, pre: string, before: string, note: string, after: string)
    requires t == pre + (before + note + after) && head <= pre && head != ""
    ensures Contains(t, note) && t != "" && t[0] == head[0] && (after != "" ==> t[|t| - 1] == after[|after| - 1])
  {
    assert pre[0] == head[0];
    assert t == (pre + before) + note + after;
    ContainsMiddle(pre + before, note, after);
  }

  lemma OmittedTextShape(group: string, artifact: string, version: string, scope: string, winner: string)
    requires Word(group) && Word(artifact) && Word(version) && Word(scope) && Word(winner)
    ensures var t := OmittedText(group, artifact, version, scope, winner);
            && t != "" && t[0] == '(' && t[|t| - 1] == ')' && IsConflictOmitted(t)
            && Parts(t) == OmittedParts(group, artifact, version, scope, winner)
  {
    var parts := OmittedParts(group, artifact, version, scope, winner);
    var before, after := scope + " - ", " with " + winner + ")";
    assert parts[4] == before + "omitted for conflict" + after;
    assert ':' !in parts[0] && ':' !in parts[2];
    assert ':' !in parts[4] by { assert ':' !in before && ':' !in after && ':' !in "omitted for conflict"; }
    OmittedPartsShape(parts, before, "omitted for conflict", after);
  }

  // ------------------------------------------------------------------- the printer

  function NodeText(n: Node): string {
    match n
    case Used(group, artifact, version, scope, _) => Join([group, artifact, "jar", version, scope], ':')
    case Omitted(group, artifact, version, scope, winner) => OmittedText(group, artifact, version, scope, winner)
  }

  function PrintNodes(bars: seq<bool>, ns: seq<Node>): seq<string>
    decreases ns
  {
    if ns == [] then []
    else
      var last := |ns| == 1;
      [PrintLine(bars, last, NodeText(ns[0]))]
      + (if ns[0].Used? then PrintNodes(bars + [!last], ns[0].children) else [])
      + PrintNodes(bars, ns[1..])
  }

  /** The dependencies that are used. */
  function Pruned(ns: seq<Node>): seq<Dependency>
    decreases ns
  {
    if ns == [] then []
    else (match ns[0]
          case Used(group, artifact, version, scope, children) =>
            [Dependency(group, artifact, version, scope, Pruned(children))]
          case Omitted(_, _, _, _, _) => [])
         + Pruned(ns[1..])
  }

  /** The package URLs under which the omitted dependencies are listed. */
  function OmittedRefs(ns: seq<Node>): set<string>
    decreases ns
  {
    if ns == [] then {}
    else (match ns[0]
          case Used(_, _, _, _, children) => OmittedRefs(children)
          case Omitted(group, artifact, version, _, _) => {Purl(MavenCoordinate("(" + group, artifact, version))})
         + OmittedRefs(ns[1..])
  }

  datatype Verbose = Verbose(group: string, artifact: string, version: string, nodes: seq<Node>)

  predicate WellFormedVerbose(p: Verbose) {
    Word(p.group) && Word(p.artifact) && Word(p.version) && AllNodesWellFormed(p.nodes)
  }

  function PrintVerbose(p: Verbose): seq<string> {
    [Join([p.group, p.artifact, "jar", p.version], ':')] + PrintNodes([], p.nodes)
  }

  function PrunedProject(p: Verbose): Project {
    Project(p.group, p.artifact, p.version, Pruned(p.nodes))
  }

  // ------------------------------------------------------- the SBOM reader ignores them

  function Telling(es: seq<Event>): seq<Event> {
    if es == [] then [] else (if es[0].Nothing? then [] else [es[0]]) + Telling(es[1..])
  }

  lemma {:induction false} TellingAppend(a: seq<Event>, b: seq<Event>)
    ensures Telling(a + b) == Telling(a) + Telling(b)
    decreases |a|
  {
    if a == [] {
      assert a + b == b;
    } else {
      assert (a + b)[1..] == a[1..] + b;
      TellingAppend(a[1..], b);
    }
  }

  lemma {:induction false} RunTelling(s: State, es: seq<Event>)
    ensures RunEvents(s, es) == RunEvents(s, Telling(es))
    decreases |es|
  {
    if es != [] {
      var rest := Telling(es[1..]);
      if es[0].Nothing? {
        assert Telling(es) == rest;
        RunTelling(s, es[1..]);
      } else {
        assert Telling(es)[1..] == rest;
        if Step(s, es[0]).Ok? { RunTelling(Step(s, es[0]).value, es[1..]); }
      }
    }
  }

  lemma {:induction false} EntriesTell(es: seq<Event>)
    requires forall e :: e in es ==> e.Entry?
    ensures Telling(es) == es
  {
    if es != [] {
      assert es[0] in es && forall e :: e in es[1..] ==> e in es;
      EntriesTell(es[1..]);
    }
  }

  lemma OmittedLine(bars: seq<bool>, last: bool, n: Node)
    requires WellFormedNode(n) && n.Omitted?
    ensures ReadLine(PrintLine(bars, last, NodeText(n))) == Nothing
    ensures ReadFlat(PrintLine(bars, last, NodeText(n)))
         == Content(true, Some(MavenCoordinate("(" + n.group, n.artifact, n.version)))
  {
    ReadersDifferOnOmitted(bars, last, n.group, n.artifact, n.version, n.scope, n.winner);
  }

  /** A line that lost a version conflict is dropped by one reader and listed by the other. */
  lemma ReadersDifferOnOmitted(bars: seq<bool>, last: bool,
                               group: string, artifact: string, version: string, scope: string, winner: string)
    requires Word(group) && Word(artifact) && Word(version) && Word(scope) && Word(winner)
    ensures var raw := PrintLine(bars, last, OmittedText(group, artifact, version, scope, winner));
            && ReadLine(raw) == Nothing
            && ReadFlat(raw) == Content(true, Some(MavenCoordinate("(" + group, artifact, version)))
  {
    var t := OmittedText(group, artifact, version, scope, winner);
    OmittedTextShape(group, artifact, version, scope, winner);
    OmittedIsDropped(bars, last, t);
    FlatPrintLine(bars, last, t);
    assert Stripped(t) == t;
    OmittedIsParsed(group, artifact, version, scope, winner);
  }

  lemma OmittedIsDropped(bars: seq<bool>, last: bool, t: string)
    requires t != "" && t[0] == '(' && t[|t| - 1] == ')' && IsConflictOmitted(t)
    ensures ReadLine(PrintLine(bars, last, t)) == Nothing
  {
    TrimNothing(t);
    PrintedLineKept(bars, last, t);
    PrintedEntry(bars, last, t);
  }

  lemma OmittedIsParsed(group: string, artifact: string, version: string, scope: string, winner: string)
    requires Word(group) && Word(artifact) && Word(version) && Word(scope) && Word(winner)
    ensures ParseCoordinate(OmittedText(group, artifact, version, scope, winner))
         == Some(MavenCoordinate("(" + group, artifact, version))
  {
    OmittedTextShape(group, artifact, version, scope, winner);
    TrimNothing("(" + group);
    TrimNothing(artifact);
    TrimNothing(version);
  }

  lemma UsedLine(bars: seq<bool>, last: bool, n: Node)
    requires WellFormedNode(n) && n.Used?
    ensures ReadLine(PrintLine(bars, last, NodeText(n))) == Entry(|bars| + 1, MavenCoordinate(n.group, n.artifact, n.version))
    ensures ReadFlat(PrintLine(bars, last, NodeText(n))) == Content(true, Listed(n.group, n.artifact, n.version))
  {
    var d := Dependency(n.group, n.artifact, n.version, n.scope, []);
    var t := NodeText(n);
    assert t == DependencyText(d);
    ReadPrinted(bars, last, d);
    assert [n.group, n.artifact, "jar", n.version] + [n.scope] == [n.group, n.artifact, "jar", n.version, n.scope];
    CoordinateText(t, n.group, n.artifact, n.version, [n.scope]);
    FlatPrintLine(bars, last, t);
    FlatText(t, n.group, n.artifact, n.version, [n.scope]);
  }

  lemma TellingThree(line: string, below: seq<string>, after: seq<string>)
    ensures Telling(ReadLines([line] + below + after))
         == Telling([ReadLine(line)]) + Telling(ReadLines(below)) + Telling(ReadLines(after))
  {
    ReadLinesAppend([line] + below, after);
    ReadLinesAppend([line], below);
    assert ReadLines([line]) == [ReadLine(line)] + ReadLines([]);
    TellingAppend([ReadLine(line)] + ReadLines(below), ReadLines(after));
    TellingAppend([ReadLine(line)], ReadLines(below));
  }

  lemma ReadUsed(bars: seq<bool>, last: bool, ns: seq<Node>, below: seq<string>, after: seq<string>)
    requires ns != [] && WellFormedNode(ns[0]) && ns[0].Used?
    requires Telling(ReadLines(below)) == ForestEvents(|bars| + 1, Pruned(ns[0].children))
    requires Telling(ReadLines(after)) == ForestEvents(|bars|, Pruned(ns[1..]))
    ensures Telling(ReadLines([PrintLine(bars, last, NodeText(ns[0]))] + below + after)) == ForestEvents(|bars|, Pruned(ns))
  {
    TellingThree(PrintLine(bars, last, NodeText(ns[0])), below, after);
    UsedLine(bars, last, ns[0]);
    UsedEvents(|bars|, ns[0], ns[1..], ns);
  }

  lemma ReadOmitted(bars: seq<bool>, last: bool, ns: seq<Node>, after: seq<string>)
    requires ns != [] && WellFormedNode(ns[0]) && ns[0].Omitted?
    requires Telling(ReadLines(after)) == ForestEvents(|bars|, Pruned(ns[1..]))
    ensures Telling(ReadLines([PrintLine(bars, last, NodeText(ns[0]))] + [] + after)) == ForestEvents(|bars|, Pruned(ns))
  {
    TellingThree(PrintLine(bars, last, NodeText(ns[0])), [], after);
    OmittedLine(bars, last, ns[0]);
    OmittedEvents(ns[0], ns[1..], ns);
  }

  lemma {:induction false} ReadNodes(bars: seq<bool>, ns: seq<Node>)
    requires AllNodesWellFormed(ns)
    ensures Telling(ReadLines(PrintNodes(bars, ns))) == ForestEvents(|bars|, Pruned(ns))
    decreases ns
  {
    if ns != [] {
      var last := |ns| == 1;
      assert ns[0] in ns;
      assert AllNodesWellFormed(ns[1..]) by { assert forall n :: n in ns[1..] ==> n in ns; }
      ReadNodes(bars, ns[1..]);
      if ns[0].Used? {
        ReadNodes(bars + [!last], ns[0].children);
        ReadUsed(bars, last, ns, PrintNodes(bars + [!last], ns[0].children), PrintNodes(bars, ns[1..]));
      } else {
        ReadOmitted(bars, last, ns, PrintNodes(bars, ns[1..]));
      }
    }
  }

  lemma UsedEvents(depth: nat, n: Node, rest: seq<Node>, ns: seq<Node>)
    requires ns != [] && ns[0] == n && ns[1..] == rest && n.Used?
    ensures ForestEvents(depth, Pruned(ns))
         == Telling([Entry(depth + 1, MavenCoordinate(n.group, n.artifact, n.version))])
            + ForestEvents(depth + 1, Pruned(n.children)) + ForestEvents(depth, Pruned(rest))
  {
    var d := Dependency(n.group, n.artifact, n.version, n.scope, Pruned(n.children));
    assert Pruned(ns) == [d] + Pruned(rest);
    assert Pruned(ns)[0] == d && Pruned(ns)[1..] == Pruned(rest);
    assert Telling([NodeEvent(depth, d)]) == [NodeEvent(depth, d)] by { assert [NodeEvent(depth, d)][1..] == []; }
  }

  lemma OmittedEvents(n: Node, rest: seq<Node>, ns: seq<Node>)
    requires ns != [] && ns[0] == n && ns[1..] == rest && n.Omitted?
    ensures Pruned(ns) == Pruned(rest) && Telling([Nothing]) == [] && Telling(ReadLines([])) == []
  {
    assert [Nothing][1..] == [];
  }

  lemma {:induction false} PrunedWellFormed(ns: seq<Node>)
    requires AllNodesWellFormed(ns)
    ensures AllWellFormed(Pruned(ns))
    decreases ns
  {
    if ns != [] {
      assert ns[0] in ns && forall n :: n in ns[1..] ==> n in ns;
      if ns[0].Used? { PrunedWellFormed(ns[0].children); }
      PrunedWellFormed(ns[1..]);
    }
  }

  /** Omitted dependencies, anywhere in the tree, make no difference to the SBOM reader. */
  lemma LoadVerbose(p: Verbose)
    requires WellFormedVerbose(p)
    ensures Load(PrintVerbose(p)) == Load(PrintProject(PrunedProject(p)))
  {
    var root, q := Join([p.group, p.artifact, "jar", p.version], ':'), Pruned(p.nodes);
    PrunedWellFormed(p.nodes);
    ReadNodes([], p.nodes);
    ReadPrintedForest([], q);
    ForestIsEntries(0, q);
    EntriesTell(ForestEvents(0, q));
    LoadTelling([root], PrintNodes([], p.nodes), PrintForest([], q));
  }

  lemma LoadTelling(root: seq<string>, a: seq<string>, b: seq<string>)
    requires Telling(ReadLines(a)) == Telling(ReadLines(b))
    ensures Load(root + a) == Load(root + b)
  {
    LoadReads(root + a);
    LoadReads(root + b);
    ReadLinesAppend(root, a);
    ReadLinesAppend(root, b);
    TellingAppend(ReadLines(root), ReadLines(a));
    TellingAppend(ReadLines(root), ReadLines(b));
    RunTelling(EMPTY, ReadLines(root + a));
    RunTelling(EMPTY, ReadLines(root + b));
  }

  // ---------------------------------------------------------------- the flat listing

  /** What the flat reader lists, in order. */
  function Listing(ns: seq<Node>): seq<Coordinate>
    decreases ns
  {
    if ns == [] then []
    else (match ns[0]
          case Used(group, artifact, version, _, children) => Found(Listed(group, artifact, version)) + Listing(children)
          case Omitted(group, artifact, version, _, _) => [MavenCoordinate("(" + group, artifact, version)])
         + Listing(ns[1..])
  }

  lemma ListThree(line: string, c: Option<Coordinate>, below: seq<string>, after: seq<string>)
    requires ReadFlat(line) == Content(true, c)
    ensures ListFrom(false, [line] + below + after) == Found(c) + ListFrom(false, below) + ListFrom(false, after)
  {
    ListAppend([line] + below, after);
    ListAppend([line], below);
    ListOne(line, c);
  }

  lemma {:induction false} ListNodes(bars: seq<bool>, ns: seq<Node>)
    requires AllNodesWellFormed(ns)
    ensures ListFrom(false, PrintNodes(bars, ns)) == Listing(ns)
    ensures ListFrom(true, PrintNodes(bars, ns)) == Listing(ns)
    decreases ns
  {
    if ns != [] {
      var n, last := ns[0], |ns| == 1;
      var line, after := PrintLine(bars, last, NodeText(n)), PrintNodes(bars, ns[1..]);
      assert n in ns;
      ListNodes(bars, ns[1..]);
      if n.Used? {
        UsedLine(bars, last, n);
        ListNodes(bars + [!last], n.children);
        ListThree(line, Listed(n.group, n.artifact, n.version), PrintNodes(bars + [!last], n.children), after);
      } else {
        OmittedLine(bars, last, n);
        ListThree(line, Some(MavenCoordinate("(" + n.group, n.artifact, n.version)), [], after);
      }
    }
    FirstIsTree(PrintNodes(bars, ns));
  }

  /** The whole listing: the project line if it is mistaken for a dependency, then the tree. */
  lemma ListVerbose(p: Verbose)
    requires WellFormedVerbose(p)
    ensures ListFrom(true, PrintVerbose(p)) == Found(ListedRoot(p.group, p.artifact, p.version)) + Listing(p.nodes)
  {
    var root, line := Join([p.group, p.artifact, "jar", p.version], ':'), Join([Shown(p.group), p.artifact, "jar", p.version], ':');
    FlatProject(p.group, p.artifact, p.version, line);
    ProjectLine(Shown(p.group), p.artifact, p.version);
    TreeStart(Shown(p.group), Behind(p.artifact, p.version), line);
    ListNodes([], p.nodes);
    ListRoot(root, PrintNodes([], p.nodes), line, Listed(Shown(p.group), p.artifact, p.version));
  }

  // --------------------------------------------------------------- what can be listed

  /** The group of a package URL does not start with a decoration character. */
  predicate PlainGroup(purl: string) {
    |purl| > 10 && !IsDecoration(purl[10])
  }

  lemma PurlGroup(group: string, artifact: string, version: string)
    requires group != ""
    ensures var r := Purl(MavenCoordinate(group, artifact, version)); |r| > 10 && r[10] == group[0]
  {
    var r := Purl(MavenCoordinate(group, artifact, version));
    assert r == "pkg:maven/" + (group + "/" + artifact + "@" + version);
    assert |"pkg:maven/"| == 10;
  }

  predicate AllPlain(cs: seq<Coordinate>) {
    forall c :: c in cs ==> PlainGroup(Purl(c))
  }

  lemma ListedIsPlain(group: string, artifact: string, version: string)
    ensures AllPlain(Found(Listed(group, artifact, version)))
  {
    StrippedIsSuffix(group);
    if Stripped(group) != "" { PurlGroup(Stripped(group), artifact, version); }
  }

  lemma {:induction false} ListingIsPlain(ns: seq<Node>)
    ensures AllPlain(Listing(ns))
    decreases ns
  {
    if ns != [] {
      ListingIsPlain(ns[1..]);
      if ns[0].Used? {
        ListedIsPlain(ns[0].group, ns[0].artifact, ns[0].version);
        ListingIsPlain(ns[0].children);
      } else {
        PurlGroup("(" + ns[0].group, ns[0].artifact, ns[0].version);
      }
    }
  }

  /** No group starts with a character the flat reader takes for decoration. */
  predicate Undecorated(d: Dependency) {
    && d.group != "" && !IsDecoration(d.group[0])
    && forall c :: c in d.children ==> Undecorated(c)
  }

  predicate AllUndecorated(ts: seq<Dependency>) {
    forall t :: t in ts ==> Undecorated(t)
  }

  lemma {:induction false} UndecoratedByRefs(ts: seq<Dependency>)
    requires AllWellFormed(ts) && forall r :: r in PreOrder(ts) ==> PlainGroup(r)
    ensures AllUndecorated(ts)
    decreases ts
  {
    if ts != [] {
      var d := ts[0];
      assert d in ts && forall t :: t in ts[1..] ==> t in ts;
      PreOrderParts(ts);
      PurlGroup(d.group, d.artifact, d.version);
      UndecoratedByRefs(d.children);
      UndecoratedByRefs(ts[1..]);
      assert ts == [d] + ts[1..];
    }
  }

  lemma PreOrderParts(ts: seq<Dependency>)
    requires ts != []
    ensures Ref(ts[0]) in PreOrder(ts)
    ensures forall r :: r in PreOrder(ts[0].children) || r in PreOrder(ts[1..]) ==> r in PreOrder(ts)
  {
    assert PreOrder(ts) == [Ref(ts[0])] + PreOrder(ts[0].children) + PreOrder(ts[1..]);
  }

  // ---------------------------------------------------------- when the readers agree

  lemma PurlSetAppend(a: seq<Coordinate>, b: seq<Coordinate>)
    ensures Elements(PurlsOf(a + b)) == Elements(PurlsOf(a)) + Elements(PurlsOf(b))
  {
    PurlsAppend(a, b);
  }

  lemma PurlSetOne(c: Coordinate)
    ensures Elements(PurlsOf([c])) == {Purl(c)}
  {
    assert PurlsOf([c]) == [Purl(c)];
  }

  lemma {:induction false} OmittedAreListed(ns: seq<Node>)
    ensures OmittedRefs(ns) <= Elements(PurlsOf(Listing(ns)))
    decreases ns
  {
    if ns != [] {
      OmittedAreListed(ns[1..]);
      if ns[0].Used? {
        var c := Found(Listed(ns[0].group, ns[0].artifact, ns[0].version));
        OmittedAreListed(ns[0].children);
        PurlSetAppend(c, Listing(ns[0].children));
        PurlSetAppend(c + Listing(ns[0].children), Listing(ns[1..]));
      } else {
        var c := MavenCoordinate("(" + ns[0].group, ns[0].artifact, ns[0].version);
        PurlSetOne(c);
        PurlSetAppend([c], Listing(ns[1..]));
      }
    }
  }

  lemma UndecoratedParts(ns: seq<Node>)
    requires ns != [] && AllUndecorated(Pruned(ns))
    ensures AllUndecorated(Pruned(ns[1..]))
    ensures ns[0].Used? ==> AllUndecorated(Pruned(ns[0].children)) && ns[0].group != "" && !IsDecoration(ns[0].group[0])
  {
    var ts := Pruned(ns);
    if ns[0].Used? {
      var d := Dependency(ns[0].group, ns[0].artifact, ns[0].version, ns[0].scope, Pruned(ns[0].children));
      assert ts == [d] + Pruned(ns[1..]);
      assert d in ts && forall x :: x in Pruned(ns[1..]) ==> x in ts;
      assert Undecorated(d);
    } else {
      assert ts == Pruned(ns[1..]);
    }
  }

  lemma PrunedRefs(ns: seq<Node>)
    requires ns != [] && ns[0].Used?
    ensures Elements(PreOrder(Pruned(ns)))
         == {Purl(MavenCoordinate(ns[0].group, ns[0].artifact, ns[0].version))}
            + Elements(PreOrder(Pruned(ns[0].children))) + Elements(PreOrder(Pruned(ns[1..])))
  {
    var d := Dependency(ns[0].group, ns[0].artifact, ns[0].version, ns[0].scope, Pruned(ns[0].children));
    assert Pruned(ns) == [d] + Pruned(ns[1..]);
    assert Pruned(ns)[0] == d && Pruned(ns)[1..] == Pruned(ns[1..]);
    PreOrderElements(Pruned(ns));
  }

  lemma {:induction false} ListingRefs(ns: seq<Node>)
    requires AllUndecorated(Pruned(ns))
    ensures Elements(PurlsOf(Listing(ns))) == Elements(PreOrder(Pruned(ns))) + OmittedRefs(ns)
    decreases ns
  {
    if ns != [] {
      UndecoratedParts(ns);
      ListingRefs(ns[1..]);
      if ns[0].Used? {
        var c := MavenCoordinate(ns[0].group, ns[0].artifact, ns[0].version);
        assert Listed(ns[0].group, ns[0].artifact, ns[0].version) == Some(c);
        ListingRefs(ns[0].children);
        PrunedRefs(ns);
        PurlSetOne(c);
        PurlSetAppend([c], Listing(ns[0].children));
        PurlSetAppend([c] + Listing(ns[0].children), Listing(ns[1..]));
      } else {
        var c := MavenCoordinate("(" + ns[0].group, ns[0].artifact, ns[0].version);
        PurlSetOne(c);
        PurlSetAppend([c], Listing(ns[1..]));
        OmittedEvents(ns[0], ns[1..], ns);
      }
    }
  }

  /** Both readers succeed and report the same set of packages. */
  ghost predicate SamePackages(lines: seq<string>) {
    Load(lines).Ok? && Elements(PurlsOf(ListFrom(true, lines))) == Load(lines).value.components.Keys
  }

  /** A package listed beside the used ones makes no difference if it is one of them. */
  predicate RootHarmless(group: string, artifact: string, version: string, refs: set<string>) {
    var c := ListedRoot(group, artifact, version);
    c.Some? ==> Purl(c.value) in refs
  }

  lemma ListedSet(root: Option<Coordinate>, ns: seq<Node>, refs: set<string>, all: set<string>)
    requires AllWellFormed(Pruned(ns)) && refs == Elements(PreOrder(Pruned(ns))) && AllPlain(Found(root))
    requires all == Elements(PurlsOf(Found(root) + Listing(ns)))
    ensures all == refs
       <==> AllUndecorated(Pruned(ns)) && OmittedRefs(ns) <= refs && (root.Some? ==> Purl(root.value) in refs)
  {
    PurlSetAppend(Found(root), Listing(ns));
    if root.Some? { PurlSetOne(root.value); }
    OmittedAreListed(ns);
    if all == refs {
      ListingIsPlain(ns);
      forall r | r in PreOrder(Pruned(ns)) ensures PlainGroup(r) {
        assert r in all;
      }
      UndecoratedByRefs(Pruned(ns));
    }
    if AllUndecorated(Pruned(ns)) { ListingRefs(ns); }
  }

  /**
   On every printed tree, omitted dependencies anywhere, the readers report the same packages iff the
   SBOM reader finds the project, no used group starts with a decoration character, and everything the
   flat reader lists besides is a used dependency as well.
   */
  lemma ReadersAgreeOnVerbose(p: Verbose)
    requires WellFormedVerbose(p)
    ensures var refs := Elements(PreOrder(Pruned(p.nodes)));
            SamePackages(PrintVerbose(p)) <==>
              && RootSeen(p.group) && AllUndecorated(Pruned(p.nodes))
              && OmittedRefs(p.nodes) <= refs && RootHarmless(p.group, p.artifact, p.version, refs)
  {
    var root := ListedRoot(p.group, p.artifact, p.version);
    PrunedWellFormed(p.nodes);
    LoadVerbose(p);
    LoadPrinted(PrunedProject(p));
    ListVerbose(p);
    ListedIsPlain(Shown(p.group), p.artifact, p.version);
    ListedSet(root, p.nodes, Elements(PreOrder(Pruned(p.nodes))), Elements(PurlsOf(ListFrom(true, PrintVerbose(p)))));
  }

  // --------------------------------------------------------------------- plain trees

  /** A tree without omitted dependencies. */
  function Plain(ts: seq<Dependency>): seq<Node>
    decreases ts
  {
    if ts == [] then []
    else [Used(ts[0].group, ts[0].artifact, ts[0].version, ts[0].scope, Plain(ts[0].children))] + Plain(ts[1..])
  }

  lemma PlainCons(ts: seq<Dependency>, n: Node)
    requires ts != [] && n == Used(ts[0].group, ts[0].artifact, ts[0].version, ts[0].scope, Plain(ts[0].children))
    ensures Plain(ts) != [] && Plain(ts)[0] == n && Plain(ts)[1..] == Plain(ts[1..]) && |Plain(ts)| == 1 + |Plain(ts[1..])|
  {
  }

  lemma {:induction false} PlainLength(ts: seq<Dependency>)
    ensures |Plain(ts)| == |ts|
  {
    if ts != [] { PlainLength(ts[1..]); }
  }

  lemma {:induction false} PlainPrints(bars: seq<bool>, ts: seq<Dependency>)
    ensures PrintNodes(bars, Plain(ts)) == PrintForest(bars, ts)
    decreases ts
  {
    if ts != [] {
      var n := Used(ts[0].group, ts[0].artifact, ts[0].version, ts[0].scope, Plain(ts[0].children));
      PlainCons(ts, n);
      PlainLength(ts);
      PlainPrints(bars + [|ts| != 1], ts[0].children);
      PlainPrints(bars, ts[1..]);
    }
  }

  lemma {:induction false} PlainFacts(ts: seq<Dependency>)
    ensures Pruned(Plain(ts)) == ts && OmittedRefs(Plain(ts)) == {}
    ensures AllWellFormed(ts) ==> AllNodesWellFormed(Plain(ts))
    decreases ts
  {
    if ts != [] {
      var n := Used(ts[0].group, ts[0].artifact, ts[0].version, ts[0].scope, Plain(ts[0].children));
      PlainCons(ts, n);
      PlainFacts(ts[0].children);
      PlainFacts(ts[1..]);
      assert ts == [ts[0]] + ts[1..] && Plain(ts) == [n] + Plain(ts[1..]);
      if AllWellFormed(ts) {
        assert ts[0] in ts && forall t :: t in ts[1..] ==> t in ts;
      }
    }
  }

  function PlainProject(p: Project): Verbose {
    Verbose(p.group, p.artifact, p.version, Plain(p.children))
  }

  lemma PlainProjectFacts(p: Project)
    requires WellFormedProject(p)
    ensures PrintVerbose(PlainProject(p)) == PrintProject(p) && WellFormedVerbose(PlainProject(p))
  {
    PlainPrints([], p.children);
    PlainFacts(p.children);
  }

  /** The same for every printed project without omitted dependencies. */
  lemma ReadersAgree(p: Project)
    requires WellFormedProject(p)
    ensures SamePackages(PrintProject(p)) <==>
              && RootSeen(p.group) && AllUndecorated(p.children)
              && RootHarmless(p.group, p.artifact, p.version, Elements(PreOrder(p.children)))
  {
    PlainProjectFacts(p);
    PlainFacts(p.children);
    ReadersAgreeOnVerbose(PlainProject(p));
  }

  /** A dependency whose group starts with a decoration character is in the SBOM but not listed. */
  lemma DecoratedGroupLost(p: Project, d: Dependency)
    requires WellFormedProject(p) && RootSeen(p.group)
    requires Ref(d) in PreOrder(p.children) && d.group != "" && IsDecoration(d.group[0])
    ensures Load(PrintProject(p)).Ok? && Ref(d) in Load(PrintProject(p)).value.components
    ensures Ref(d) !in PurlsOf(ListFrom(true, PrintProject(p)))
  {
    LoadPrinted(p);
    PlainProjectFacts(p);
    ListedArePlain(PlainProject(p));
    PurlGroup(d.group, d.artifact, d.version);
  }

  lemma ListedArePlain(p: Verbose)
    requires WellFormedVerbose(p)
    ensures forall r :: r in PurlsOf(ListFrom(true, PrintVerbose(p))) ==> PlainGroup(r)
  {
    ListVerbose(p);
    ListingIsPlain(p.nodes);
    ListedIsPlain(Shown(p.group), p.artifact, p.version);
    AllPlainPurls(Found(ListedRoot(p.group, p.artifact, p.version)) + Listing(p.nodes));
  }

  lemma {:induction false} ListingOrder(ts: seq<Dependency>)
    requires AllUndecorated(ts)
    ensures PurlsOf(Listing(Plain(ts))) == PreOrder(ts)
    decreases ts
  {
    if ts != [] {
      var n := Used(ts[0].group, ts[0].artifact, ts[0].version, ts[0].scope, Plain(ts[0].children));
      var c := MavenCoordinate(ts[0].group, ts[0].artifact, ts[0].version);
      PlainCons(ts, n);
      assert ts[0] in ts && forall t :: t in ts[1..] ==> t in ts;
      assert Listed(ts[0].group, ts[0].artifact, ts[0].version) == Some(c);
      ListingOrder(ts[0].children);
      ListingOrder(ts[1..]);
      PurlsAppend([c], Listing(n.children));
      PurlsAppend([c] + Listing(n.children), Listing(Plain(ts[1..])));
      assert PurlsOf([c]) == [Purl(c)];
    }
  }

  /** The flat reader lists exactly the pre-order of a printed project iff nothing is mistaken for decoration. */
  lemma ListPrintedProject(p: Project)
    requires WellFormedProject(p)
    ensures PurlsOf(ListFrom(true, PrintProject(p))) == PreOrder(p.children)
       <==> AllUndecorated(p.children) && ListedRoot(p.group, p.artifact, p.version).None?
  {
    var root, ns := Found(ListedRoot(p.group, p.artifact, p.version)), Plain(p.children);
    PlainProjectFacts(p);
    ListVerbose(PlainProject(p));
    PurlsAppend(root, Listing(ns));
    if PurlsOf(root + Listing(ns)) == PreOrder(p.children) {
      ListedArePlain(PlainProject(p));
      UndecoratedByRefs(p.children);
    }
    if AllUndecorated(p.children) { ListingOrder(p.children); }
  }

  lemma AllPlainPurls(cs: seq<Coordinate>)
    requires AllPlain(cs)
    ensures forall r :: r in PurlsOf(cs) ==> PlainGroup(r)
  {
  }
}
