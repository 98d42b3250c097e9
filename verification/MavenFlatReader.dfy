/** The scan reader of Maven trees, which lists coordinates without following the tree. */
module MavenFlatReader {
  import opened Wrappers
  import opened Text
  import opened Coordinates
  import opened MavenTree
  import opened MavenRoundTrip

  predicate IsDecoration(c: char) {
    c == '+' || c == '-' || c == '\\' || c == '|' || c == ' '
  }

  function FlatLine(raw: string): string {
    Trim(if "[INFO]" <= raw then TrimStart(raw[|"[INFO]"|..]) else raw)
  }

  predicate IsFlatNoise(line: string) {
    line == "" || "BUILD" <= line || "--------" <= line || "Total time" <= line || "Finished at" <= line
  }

  predicate StartsAsTree(line: string) {
    line != "" && (line[0] == '+' || line[0] == '\\' || line[0] == '|')
  }

  function FlatCoordinate(line: string): Option<Coordinate> {
    ParseCoordinate(TrimStartMatches(line, IsDecoration))
  }

  function Found(c: Option<Coordinate>): seq<Coordinate> {
    if c.Some? then [c.value] else []
  }

  /** What one raw line says: nothing, or whether it is a tree line and what coordinate it holds. */
  datatype FlatRead = Noise | Content(tree: bool, coordinate: Option<Coordinate>)

  function ReadFlat(raw: string): FlatRead {
    var line := FlatLine(raw);
    if IsFlatNoise(line) then Noise else Content(StartsAsTree(line), FlatCoordinate(line))
  }

  /** While the project line has not been met (`first`), undecorated lines are not listed. */
  function Emits(first: bool, read: FlatRead): seq<Coordinate> {
    if read.Noise? || (first && !read.tree) then [] else Found(read.coordinate)
  }

  function StillFirst(first: bool, read: FlatRead): bool {
    first && (read.Noise? || (!read.tree && read.coordinate.None?))
  }

  function ListFrom(first: bool, lines: seq<string>): seq<Coordinate>
    decreases |lines|
  {
    if lines == [] then []
    else
      var read := ReadFlat(lines[0]);
      Emits(first, read) + ListFrom(StillFirst(first, read), lines[1..])
  }

  lemma ListUnfolds(found: seq<Coordinate>, first: bool, lines: seq<string>, i: nat, read: FlatRead)
    requires i < |lines| && read == ReadFlat(lines[i])
    ensures found + ListFrom(first, lines[i..])
         == (found + Emits(first, read)) + ListFrom(StillFirst(first, read), lines[i + 1..])
  {
    assert lines[i..][0] == lines[i] && lines[i..][1..] == lines[i + 1..];
  }

  method ListDependencies(lines: seq<string>) returns (findings: seq<Coordinate>)
    ensures findings == ListFrom(true, lines)
  {
    findings := [];
    var firstLine := true;
    for i := 0 to |lines|
      invariant findings + ListFrom(firstLine, lines[i..]) == ListFrom(true, lines)
    {
      var read := ReadFlat(lines[i]);
      ListUnfolds(findings, firstLine, lines, i, read);
      ghost var next, nextFirst := findings + Emits(firstLine, read), StillFirst(firstLine, read);
      if read.Content? {
        if firstLine && !read.tree {
          if read.coordinate.Some? { firstLine := false; }
        } else {
          firstLine := false;
          if read.coordinate.Some? {
            findings := findings + [read.coordinate.value];
          }
        }
      }
      assert findings == next && firstLine == nextFirst;
    }
    assert lines[|lines|..] == [];
  }

  // --------------------------------------------------------------- one printed line

  function Stripped(s: string): string {
    TrimStartMatches(s, IsDecoration)
  }

  lemma {:induction false} StrippedIsSuffix(s: string)
    ensures |Stripped(s)| <= |s| && Stripped(s) == s[|s| - |Stripped(s)|..]
    ensures Stripped(s) != "" ==> !IsDecoration(Stripped(s)[0])
  {
    if s != "" && IsDecoration(s[0]) { StrippedIsSuffix(s[1..]); }
  }

  /** The coordinate the flat reader finds where a group, an artifact and a version are printed. */
  function Listed(group: string, artifact: string, version: string): Option<Coordinate> {
    if Stripped(group) == "" then None else Some(MavenCoordinate(Stripped(group), artifact, version))
  }

  /** Decoration characters at the start of the group are lost, and with them a group that has no others. */
  lemma FlatText(t: string, group: string, artifact: string, version: string, tail: seq<string>)
    requires NoWhitespace(group) && ':' !in group && Word(artifact) && Word(version)
    requires tail == [] || (|tail| == 1 && Word(tail[0]))
    requires t == Join([group, artifact, "jar", version] + tail, ':')
    ensures FlatCoordinate(t) == Listed(group, artifact, version)
  {
    StrippedIsSuffix(group);
    ConsParts(group, artifact, version, tail);
    ConsParts(Stripped(group), artifact, version, tail);
    StripsGroup(t, group, [artifact, "jar", version] + tail);
    PartialGroup(Stripped(t), Stripped(group), artifact, version, tail);
  }

  lemma ConsParts(group: string, artifact: string, version: string, tail: seq<string>)
    ensures [group] + ([artifact, "jar", version] + tail) == [group, artifact, "jar", version] + tail
  {
  }

  lemma StripsGroup(t: string, group: string, rest: seq<string>)
    requires rest != [] && t == Join([group] + rest, ':')
    ensures Stripped(t) == Join([Stripped(group)] + rest, ':')
  {
    JoinAppend([group], rest, ':');
    JoinAppend([Stripped(group)], rest, ':');
    var behind := [':'] + Join(rest, ':');
    assert t == group + behind;
    TrimStartStops(group, behind, IsDecoration);
  }

  lemma {:induction false} IndentIsDecoration(bars: seq<bool>)
    ensures forall i :: 0 <= i < |Indent(bars)| ==> IsDecoration(Indent(bars)[i])
  {
    if bars != [] {
      IndentIsDecoration(bars[1..]);
      var column := if bars[0] then BAR else GAP;
      assert Indent(bars) == column + Indent(bars[1..]);
      assert forall i :: 0 <= i < 3 ==> IsDecoration(column[i]);
    }
  }

  lemma StripsIndent(bars: seq<bool>, last: bool, text: string)
    ensures Stripped(PrintLine(bars, last, text)) == Stripped(text)
  {
    IndentIsDecoration(bars);
    var pre := Indent(bars) + Marker(last);
    assert forall i :: 0 <= i < 3 ==> IsDecoration(Marker(last)[i]);
    assert PrintLine(bars, last, text) == pre + text;
    TrimStartSkips(pre, text, IsDecoration);
  }

  /** Leading gaps go away with the whitespace; what is left starts with a tree mark. */
  lemma {:induction false} TrimmedPrintLine(bars: seq<bool>, last: bool, text: string)
    ensures var t := TrimStart(PrintLine(bars, last, text));
            && StartsAsTree(t) && Stripped(t) == Stripped(text)
            && |t| > |text| && t[|t| - |text|..] == text
  {
    StripsIndent(bars, last, text);
    var line := PrintLine(bars, last, text);
    if bars == [] {
      assert line == Marker(last) + text;
    } else if bars[0] {
      assert line[0] == '|';
    } else {
      var rest := PrintLine(bars[1..], last, text);
      assert line == GAP + rest;
      TrimmedPrintLine(bars[1..], last, text);
      TrimStartSkips(GAP, rest, IsWhitespace);
    }
  }

  lemma FlatPrintLine(bars: seq<bool>, last: bool, text: string)
    requires text != "" && !IsWhitespace(text[|text| - 1])
    ensures ReadFlat(PrintLine(bars, last, text)) == Content(true, FlatCoordinate(text))
  {
    var line := PrintLine(bars, last, text);
    PrintedStart(bars, last, text);
    assert !("[INFO]" <= line);
    TrimmedPrintLine(bars, last, text);
    var t := TrimStart(line);
    assert t[|t| - 1] == text[|text| - 1];
    assert FlatLine(line) == t;
  }

  // --------------------------------------------------------------- the project line

  /** The project line is taken for a dependency: its group starts with a tree mark. */
  function ListedRoot(group: string, artifact: string, version: string): Option<Coordinate> {
    if StartsAsTree(Shown(group)) then Listed(Shown(group), artifact, version) else None
  }

  lemma FlatLineOf(t: string, line: string)
    requires NoWhitespace(t) && TrimEnd(t) == t && Trim(line) == line && NoWhitespace(line)
    requires line == if "[INFO]" <= t then t[6..] else t
    ensures FlatLine(t) == line
  {
    TrimNothing(line);
  }

  lemma FlatProject(group: string, artifact: string, version: string, line: string)
    requires Word(group) && Word(artifact) && Word(version) && line == Join([Shown(group), artifact, "jar", version], ':')
    ensures FlatLine(Join([group, artifact, "jar", version], ':')) == line
    ensures FlatCoordinate(line) == Listed(Shown(group), artifact, version)
  {
    var shown := Shown(group);
    var t := Join([group, artifact, "jar", version], ':');
    ShownLine(group, artifact, version, t, line);
    FlatLineOf(t, line);
    assert [shown, artifact, "jar", version] + [] == [shown, artifact, "jar", version];
    FlatText(line, shown, artifact, version, []);
  }

  lemma TreeStart(shown: string, rest: string, line: string)
    requires line == shown + [':'] + rest
    ensures StartsAsTree(line) <==> StartsAsTree(shown)
    ensures StartsAsTree(line) ==> !IsFlatNoise(line)
  {
    assert line[0] == if shown == "" then ':' else shown[0];
  }

  // ------------------------------------------------------------------- the listing

  function PurlsOf(cs: seq<Coordinate>): seq<string> {
    seq(|cs|, i requires 0 <= i < |cs| => Purl(cs[i]))
  }

  lemma PurlsAppend(a: seq<Coordinate>, b: seq<Coordinate>)
    ensures PurlsOf(a + b) == PurlsOf(a) + PurlsOf(b)
  {
  }

  lemma {:induction false} ListAppend(a: seq<string>, b: seq<string>)
    ensures ListFrom(false, a + b) == ListFrom(false, a) + ListFrom(false, b)
    decreases |a|
  {
    if a == [] {
      assert a + b == b;
    } else {
      assert (a + b)[1..] == a[1..] + b;
      ListAppend(a[1..], b);
    }
  }

  lemma ListOne(line: string, c: Option<Coordinate>)
    requires ReadFlat(line) == Content(true, c)
    ensures ListFrom(false, [line]) == Found(c)
  {
    assert ListFrom(false, [line][1..]) == [] && Found(c) + [] == Found(c);
  }

  /** Before a tree line it makes no difference whether the project line has been met. */
  lemma FirstIsTree(lines: seq<string>)
    requires lines == [] || (ReadFlat(lines[0]).Content? && ReadFlat(lines[0]).tree)
    ensures ListFrom(true, lines) == ListFrom(false, lines)
  {
  }

  lemma ListRoot(root: string, below: seq<string>, line: string, coordinate: Option<Coordinate>)
    requires FlatLine(root) == line && FlatCoordinate(line) == coordinate && (StartsAsTree(line) ==> !IsFlatNoise(line))
    requires ListFrom(true, below) == ListFrom(false, below)
    ensures ListFrom(true, [root] + below) == (if StartsAsTree(line) then Found(coordinate) else []) + ListFrom(false, below)
  {
    assert ([root] + below)[1..] == below;
    assert [] + ListFrom(false, below) == ListFrom(false, below);
  }
}
