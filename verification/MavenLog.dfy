/**
 Dependency trees as they stand in Maven's output: every line of the tree behind an information mark,
 and other lines of the log between them.
 */
module MavenLog {
  import opened Wrappers
  import opened Text
  import opened Coordinates
  import opened MavenTree
  import opened MavenRoundTrip
  import opened MavenFlatReader
  import opened MavenReaders

  const MARK := "[INFO] "

  datatype Item = Tree(text: string) | Chatter(text: string)

  /** How the information lines around a build start. */
  predicate IsBuildWord(word: string) {
    || word == "BUILD" || word == "--------" || word == "Total time" || word == "Finished at"
    || word == "Scanning for projects"
  }

  /** Other levels, blank lines, and the information lines around a build. */
  ghost predicate IsChatter(line: string) {
    || "[WARNING]" <= line || "[ERROR]" <= line || "[DEBUG]" <= line || Trim(line) == ""
    || exists word :: IsBuildWord(word) && MARK + word <= line
  }

  function LogLine(item: Item): string {
    match item
    case Tree(text) => MARK + text
    case Chatter(text) => text
  }

  function LogLines(items: seq<Item>): seq<string> {
    if items == [] then [] else [LogLine(items[0])] + LogLines(items[1..])
  }

  function TreeLines(items: seq<Item>): seq<string> {
    if items == [] then []
    else (if items[0].Tree? then [items[0].text] else []) + TreeLines(items[1..])
  }

  /** The output holds the printed project, line by line, and chatter. */
  ghost predicate IsLogOf(items: seq<Item>, p: Project) {
    TreeLines(items) == PrintProject(p) && forall i :: i in items && i.Chatter? ==> IsChatter(i.text)
  }

  function Marked(lines: seq<string>): seq<string> {
    if lines == [] then [] else [MARK + lines[0]] + Marked(lines[1..])
  }

  // -------------------------------------------------------------------- chatter

  lemma {:induction false} TrimEndKeeps(prefix: string, line: string)
    requires prefix != "" && !IsWhitespace(prefix[|prefix| - 1]) && prefix <= line
    ensures prefix <= TrimEnd(line)
    decreases |line|
  {
    if IsWhitespace(line[|line| - 1]) {
      assert |prefix| < |line|;
      TrimEndKeeps(prefix, line[..|line| - 1]);
    }
  }

  lemma {:induction false} BlankTrims(line: string)
    requires Trim(line) == ""
    ensures TrimEnd(line) == ""
  {
    AllBlank(line);
    BlankEnds(line);
  }

  lemma {:induction false} AllBlank(line: string)
    requires Trim(line) == ""
    ensures forall i :: 0 <= i < |line| ==> IsWhitespace(line[i])
  {
    if line != "" && !IsWhitespace(line[0]) {
      assert TrimStart(line) == line;
      KeepsFirst(line);
    } else if line != "" {
      AllBlank(line[1..]);
    }
  }

  lemma {:induction false} KeepsFirst(s: string)
    requires s != "" && !IsWhitespace(s[0])
    ensures TrimEnd(s) != ""
  {
    if |s| > 1 && IsWhitespace(s[|s| - 1]) { KeepsFirst(s[..|s| - 1]); }
  }

  lemma {:induction false} BlankEnds(s: string)
    requires forall i :: 0 <= i < |s| ==> IsWhitespace(s[i])
    ensures TrimEnd(s) == ""
  {
    if s != "" { BlankEnds(s[..|s| - 1]); }
  }

  lemma InfoLine(line: string, t: string, word: string)
    requires t == TrimEnd(line) && MARK + word <= t && word != ""
    ensures NormalizeLine(line) == Some(t[7..]) && word <= t[7..]
  {
    assert MARK == "[INFO] " && (MARK + word)[..7] == MARK;
    assert t[..7] == MARK && t[1] == 'I' && t[6] == ' ';
    assert t[6..][1..] == t[7..];
    assert t[7..][..|word|] == word;
  }

  lemma InfoNoise(line: string, word: string)
    requires IsBuildWord(word) && MARK + word <= line
    ensures ReadLine(line) == Nothing
  {
    TrimEndKeeps(MARK + word, line);
    InfoLine(line, TrimEnd(line), word);
  }

  /** Chatter says nothing to the SBOM reader. */
  lemma ChatterIsNothing(line: string)
    requires IsChatter(line)
    ensures ReadLine(line) == Nothing
  {
    if Trim(line) == "" {
      BlankTrims(line);
    } else if "[WARNING]" <= line {
      TrimEndKeeps("[WARNING]", line);
    } else if "[ERROR]" <= line {
      TrimEndKeeps("[ERROR]", line);
    } else if "[DEBUG]" <= line {
      TrimEndKeeps("[DEBUG]", line);
    } else {
      var word :| IsBuildWord(word) && MARK + word <= line;
      InfoNoise(line, word);
    }
  }

  // ---------------------------------------------------------------- marked tree lines

  predicate IsKept(line: string) {
    line != "" && !IsWhitespace(line[|line| - 1])
  }

  /** The mark and its space come off, and nothing else. */
  lemma MarkedRead(line: string)
    requires IsKept(line)
    ensures ReadLine(MARK + line) == ReadContent(line)
  {
    var t := MARK + line;
    assert t[|t| - 1] == line[|line| - 1];
    assert TrimEnd(t) == t;
    InfoLine(t, t, line);
    assert t[7..] == line;
  }

  lemma {:induction false} ForestKept(bars: seq<bool>, ts: seq<Dependency>)
    requires AllWellFormed(ts)
    ensures forall l :: l in PrintForest(bars, ts) ==> IsKept(l) && ReadLine(l) == ReadContent(l)
    decreases ts
  {
    if ts != [] {
      var d, last := ts[0], |ts| == 1;
      var line, text := PrintLine(bars, last, DependencyText(d)), DependencyText(d);
      assert d in ts;
      assert [d.group, d.artifact, "jar", d.version] + [d.scope] == [d.group, d.artifact, "jar", d.version, d.scope];
      CoordinateText(text, d.group, d.artifact, d.version, [d.scope]);
      PrintedLineKept(bars, last, text);
      assert line[|line| - 1] == text[|text| - 1];
      ForestKept(bars + [!last], d.children);
      ForestKept(bars, ts[1..]);
    }
  }

  lemma {:induction false} ReadMarked(lines: seq<string>)
    requires forall l :: l in lines ==> IsKept(l) && ReadLine(l) == ReadContent(l)
    ensures ReadLines(Marked(lines)) == ReadLines(lines)
  {
    if lines != [] {
      assert lines[0] in lines && forall l :: l in lines[1..] ==> l in lines;
      MarkedRead(lines[0]);
      ReadMarked(lines[1..]);
      assert Marked(lines)[1..] == Marked(lines[1..]);
    }
  }

  lemma {:induction false} ReadLog(items: seq<Item>)
    requires forall i :: i in items && i.Chatter? ==> IsChatter(i.text)
    ensures Telling(ReadLines(LogLines(items))) == Telling(ReadLines(Marked(TreeLines(items))))
  {
    if items != [] {
      var i := items[0];
      assert i in items && forall x :: x in items[1..] ==> x in items;
      ReadLog(items[1..]);
      assert LogLines(items)[1..] == LogLines(items[1..]);
      if i.Chatter? {
        ChatterIsNothing(i.text);
        assert TreeLines(items) == TreeLines(items[1..]);
      } else {
        assert TreeLines(items)[1..] == TreeLines(items[1..]);
        assert Marked(TreeLines(items)) == [MARK + i.text] + Marked(TreeLines(items[1..]));
      }
      TellingFirst(LogLines(items));
      if i.Tree? { TellingFirst(Marked(TreeLines(items))); }
    }
  }

  lemma TellingFirst(lines: seq<string>)
    requires lines != []
    ensures Telling(ReadLines(lines))
         == (if ReadLine(lines[0]).Nothing? then [] else [ReadLine(lines[0])]) + Telling(ReadLines(lines[1..]))
  {
    assert ReadLines(lines)[1..] == ReadLines(lines[1..]);
  }

  /** Behind a mark the project line is read with its whole group; only build noise is dropped. */
  lemma MarkedProject(p: Project)
    requires WellFormedProject(p)
    ensures ReadLine(MARK + ProjectText(p)) == if IsLogNoise(p.group) then Nothing else Root(ProjectCoordinate(p))
  {
    var t := ProjectText(p);
    assert [p.group, p.artifact, "jar", p.version] + [] == [p.group, p.artifact, "jar", p.version];
    CoordinateText(t, p.group, p.artifact, p.version, []);
    ProjectLine(p.group, p.artifact, p.version);
    NoiseOf(p.group, Behind(p.artifact, p.version), t);
    MarkedRead(t);
  }

  /** The SBOM reader gets the project out of Maven's output iff its group does not read as build noise. */
  lemma LoadLogged(items: seq<Item>, p: Project)
    requires WellFormedProject(p) && IsLogOf(items, p)
    ensures Delivers(Load(LogLines(items)), ProjectCoordinate(p), p.children) <==> !IsLogNoise(p.group)
    ensures IsLogNoise(p.group) ==> Load(LogLines(items)) == Err
  {
    var forest := PrintForest([], p.children);
    var e := if IsLogNoise(p.group) then Nothing else Root(ProjectCoordinate(p));
    ReadLog(items);
    MarkedProject(p);
    ForestKept([], p.children);
    ReadMarked(forest);
    ReadPrintedForest([], p.children);
    assert PrintProject(p)[1..] == forest;
    assert Marked(PrintProject(p)) == [MARK + ProjectText(p)] + Marked(forest);
    RootFirst(MARK + ProjectText(p), Marked(forest), e, ForestEvents(0, p.children));
    LoadReads(LogLines(items));
    RunTelling(EMPTY, ReadLines(LogLines(items)));
    RunTelling(EMPTY, [e] + ForestEvents(0, p.children));
    if IsLogNoise(p.group) {
      RunUnrooted(p.children);
    } else {
      RunRooted(ProjectCoordinate(p), p.children);
    }
  }

  lemma RootFirst(root: string, below: seq<string>, e: Event, es: seq<Event>)
    requires ReadLine(root) == e && ReadLines(below) == es
    ensures ReadLines([root] + below) == [e] + es
  {
    assert ([root] + below)[1..] == below;
  }

  // ------------------------------------------------------------------ the scan reader

  lemma {:induction false} TrimStartTwice(s: string)
    ensures TrimStart(TrimStart(s)) == TrimStart(s)
  {
    if s != "" && IsWhitespace(s[0]) { TrimStartTwice(s[1..]); }
  }

  lemma FlatMarked(line: string)
    requires !("[INFO]" <= line)
    ensures FlatLine(MARK + line) == FlatLine(line)
  {
    var t := MARK + line;
    assert t[..6] == "[INFO]" && t[6..] == " " + line;
    assert (" " + line)[1..] == line;
    TrimStartTwice(line);
  }

  lemma {:induction false} ListMarked(first: bool, lines: seq<string>)
    requires forall l :: l in lines ==> !("[INFO]" <= l)
    ensures ListFrom(first, Marked(lines)) == ListFrom(first, lines)
    decreases |lines|
  {
    if lines != [] {
      assert lines[0] in lines && forall l :: l in lines[1..] ==> l in lines;
      FlatMarked(lines[0]);
      ListMarked(StillFirst(first, ReadFlat(lines[0])), lines[1..]);
      assert Marked(lines)[1..] == Marked(lines[1..]);
    }
  }

  lemma TrimFirst(s: string)
    requires s != "" && !IsWhitespace(s[0])
    ensures Trim(s) != "" && Trim(s)[0] == s[0]
  {
    assert TrimStart(s) == s;
    TrimEndFirst(s);
  }

  lemma {:induction false} TrimEndFirst(s: string)
    requires s != "" && !IsWhitespace(s[0])
    ensures TrimEnd(s) != "" && TrimEnd(s)[0] == s[0]
  {
    if |s| > 1 && IsWhitespace(s[|s| - 1]) { TrimEndFirst(s[..|s| - 1]); }
  }

  lemma BuildWordStart(word: string)
    requires IsBuildWord(word)
    ensures word != "" && !IsWhitespace(word[0]) && word[0] != '+' && word[0] != '\\' && word[0] != '|'
  {
  }

  lemma InfoFlat(line: string, word: string)
    requires IsBuildWord(word) && MARK + word <= line
    ensures var t := FlatLine(line); t != "" && t[0] == word[0]
  {
    var rest := line[7..];
    BuildWordStart(word);
    assert line == MARK + rest && rest[..|word|] == word by { assert (MARK + word)[..7] == MARK && (MARK + word)[7..] == word; }
    assert rest[0] == word[0];
    assert line[..6] == "[INFO]" && line[6..] == " " + rest;
    assert (" " + rest)[1..] == rest;
    TrimFirst(rest);
  }

  lemma LevelFlat(line: string)
    requires line != "" && line[0] == '[' && !("[INFO]" <= line)
    ensures var t := FlatLine(line); t != "" && t[0] == '['
  {
    TrimFirst(line);
  }

  /** Chatter is never taken for a tree line. */
  lemma ChatterFlat(line: string)
    requires IsChatter(line)
    ensures ReadFlat(line).Noise? || !ReadFlat(line).tree
  {
    if Trim(line) == "" {
      AllBlank(line);
      assert FlatLine(line) == "";
    } else if "[WARNING]" <= line || "[ERROR]" <= line || "[DEBUG]" <= line {
      assert line[0] == '[' && line[1] != 'I';
      LevelFlat(line);
    } else {
      var word :| IsBuildWord(word) && MARK + word <= line;
      BuildWordStart(word);
      InfoFlat(line, word);
    }
  }

  /** The line holds what the scan reader takes for a coordinate. */
  predicate IsLoud(line: string) {
    ReadFlat(line).Content? && ReadFlat(line).coordinate.Some?
  }

  function LoudCount(items: seq<Item>): nat {
    if items == [] then 0
    else (if items[0].Chatter? && IsLoud(items[0].text) then 1 else 0) + LoudCount(items[1..])
  }

  lemma ListFirst(first: bool, lines: seq<string>)
    requires lines != []
    ensures ListFrom(first, lines)
         == Emits(first, ReadFlat(lines[0])) + ListFrom(StillFirst(first, ReadFlat(lines[0])), lines[1..])
  {
  }

  lemma LogFirst(items: seq<Item>)
    requires items != []
    ensures LogLines(items) != [] && LogLines(items)[0] == LogLine(items[0]) && LogLines(items)[1..] == LogLines(items[1..])
    ensures items[0].Chatter? ==> TreeLines(items) == TreeLines(items[1..])
    ensures items[0].Tree? ==>
              && TreeLines(items) != [] && TreeLines(items)[0] == items[0].text && TreeLines(items)[1..] == TreeLines(items[1..])
              && Marked(TreeLines(items)) == [MARK + items[0].text] + Marked(TreeLines(items[1..]))
  {
  }

  /** `n` coordinates more are listed in `a` than in `b`. */
  ghost predicate Louder(a: seq<Coordinate>, b: seq<Coordinate>, n: nat) {
    |a| == |b| + n && (n == 0 ==> a == b)
  }

  lemma ListCons(line: string, rest: seq<string>)
    ensures ListFrom(false, [line] + rest) == Emits(false, ReadFlat(line)) + ListFrom(false, rest)
  {
    assert ([line] + rest)[1..] == rest;
  }

  lemma BehindTree(line: string, a: seq<string>, b: seq<string>, n: nat)
    requires Louder(ListFrom(false, a), ListFrom(false, b), n)
    ensures Louder(ListFrom(false, [line] + a), ListFrom(false, [line] + b), n)
  {
    ListCons(line, a);
    ListCons(line, b);
  }

  lemma BehindChatter(line: string, a: seq<string>, b: seq<string>, n: nat)
    requires Louder(ListFrom(false, a), ListFrom(false, b), n)
    ensures Louder(ListFrom(false, [line] + a), ListFrom(false, b), n + if IsLoud(line) then 1 else 0)
  {
    ListCons(line, a);
    assert !IsLoud(line) ==> Emits(false, ReadFlat(line)) == [] && [] + ListFrom(false, a) == ListFrom(false, a);
  }

  /** Behind the project line every loud line is listed as well. */
  lemma {:induction false} ListBehind(items: seq<Item>)
    ensures Louder(ListFrom(false, LogLines(items)), ListFrom(false, Marked(TreeLines(items))), LoudCount(items))
  {
    if items != [] {
      ListBehind(items[1..]);
      LogFirst(items);
      if items[0].Tree? {
        BehindTree(MARK + items[0].text, LogLines(items[1..]), Marked(TreeLines(items[1..])), LoudCount(items[1..]));
      } else {
        BehindChatter(items[0].text, LogLines(items[1..]), Marked(TreeLines(items[1..])), LoudCount(items[1..]));
      }
    }
  }

  /** The lines around a build that the scan reader knows hold nothing for it, times and dates included. */
  lemma BuildLinesAreQuiet(line: string, word: string)
    requires word == "BUILD" || word == "--------" || word == "Total time" || word == "Finished at"
    requires MARK + word <= line
    ensures !IsLoud(line)
  {
    var rest := line[7..];
    assert line == MARK + rest && rest[..|word|] == word by { assert (MARK + word)[..7] == MARK && (MARK + word)[7..] == word; }
    assert line[..6] == "[INFO]" && line[6..] == " " + rest && (" " + rest)[1..] == rest;
    assert rest[0] == word[0];
    assert !IsWhitespace(word[0]) && TrimStart(rest) == rest;
    TrimStartSkips(" ", rest, IsWhitespace);
    TrimEndKeeps(word, rest);
    assert FlatLine(line) == TrimEnd(rest);
  }

  /** A project line that is skipped: no tree mark, and a coordinate. */
  ghost predicate StartsWithProject(lines: seq<string>) {
    lines != [] && ReadFlat(lines[0]).Content? && !ReadFlat(lines[0]).tree && ReadFlat(lines[0]).coordinate.Some?
  }

  lemma {:induction false} ListLog(items: seq<Item>)
    requires forall i :: i in items && i.Chatter? ==> IsChatter(i.text)
    requires StartsWithProject(Marked(TreeLines(items)))
    ensures Louder(ListFrom(true, LogLines(items)), ListFrom(true, Marked(TreeLines(items))), LoudCount(items))
  {
    var i, rest, tree := items[0], items[1..], Marked(TreeLines(items));
    assert i in items && forall x :: x in rest ==> x in items;
    LogFirst(items);
    ListFirst(true, LogLines(items));
    if i.Tree? {
      ListFirst(true, tree);
      assert tree[1..] == Marked(TreeLines(rest));
      ListBehind(rest);
    } else {
      ChatterFlat(i.text);
      if IsLoud(i.text) {
        ListBehind(rest);
        ListFirst(true, tree);
        ListFirst(false, tree);
      } else {
        ListLog(rest);
      }
    }
  }

  lemma {:induction false} LoudSomewhere(items: seq<Item>)
    ensures LoudCount(items) == 0 <==> forall i :: i in items && i.Chatter? ==> !IsLoud(i.text)
  {
    if items != [] {
      LoudSomewhere(items[1..]);
      assert items == [items[0]] + items[1..];
    }
  }

  lemma {:induction false} ForestUnmarked(bars: seq<bool>, ts: seq<Dependency>)
    ensures forall l :: l in PrintForest(bars, ts) ==> !("[INFO]" <= l)
    decreases ts
  {
    if ts != [] {
      PrintedStart(bars, |ts| == 1, DependencyText(ts[0]));
      ForestUnmarked(bars + [|ts| != 1], ts[0].children);
      ForestUnmarked(bars, ts[1..]);
    }
  }

  lemma ProjectListed(p: Project)
    requires WellFormedProject(p) && !("[INFO]" <= p.group) && !IsLogNoise(p.group) && !IsDecoration(p.group[0])
    ensures var t := ProjectText(p);
            && !("[INFO]" <= t)
            && ReadFlat(t) == Content(false, Some(ProjectCoordinate(p)))
  {
    var t, rest := ProjectText(p), Behind(p.artifact, p.version);
    FlatProject(p.group, p.artifact, p.version, t);
    ProjectLine(p.group, p.artifact, p.version);
    TreeStart(p.group, rest, t);
    PrefixOfGroup("[INFO]", p.group, rest);
    assert [p.group, p.artifact, "jar", p.version] + [] == [p.group, p.artifact, "jar", p.version];
    CoordinateText(t, p.group, p.artifact, p.version, []);
    NoiseOf(p.group, rest, t);
  }

  lemma {:induction false} QuietLog(first: bool, items: seq<Item>)
    requires forall i :: i in items && i.Chatter? ==> IsChatter(i.text) && !IsLoud(i.text)
    ensures ListFrom(first, LogLines(items)) == ListFrom(first, Marked(TreeLines(items)))
    decreases |items|
  {
    if items != [] {
      var i, rest := items[0], items[1..];
      assert i in items && forall x :: x in rest ==> x in items;
      LogFirst(items);
      ListFirst(first, LogLines(items));
      if i.Tree? {
        ListFirst(first, Marked(TreeLines(items)));
        assert Marked(TreeLines(items))[1..] == Marked(TreeLines(rest));
        QuietLog(StillFirst(first, ReadFlat(MARK + i.text)), rest);
      } else {
        ChatterFlat(i.text);
        QuietLog(first, rest);
      }
    }
  }

  /** Whatever the project, lines without a coordinate between the tree lines change nothing for the scan reader. */
  lemma ListQuietLog(items: seq<Item>, p: Project)
    requires WellFormedProject(p) && IsLogOf(items, p) && !("[INFO]" <= p.group)
    requires forall i :: i in items && i.Chatter? ==> !IsLoud(i.text)
    ensures ListFrom(true, LogLines(items)) == ListFrom(true, PrintProject(p))
  {
    ProjectLine(p.group, p.artifact, p.version);
    PrefixOfGroup("[INFO]", p.group, Behind(p.artifact, p.version));
    ForestUnmarked([], p.children);
    assert forall l :: l in PrintProject(p) ==> !("[INFO]" <= l);
    ListMarked(true, PrintProject(p));
    QuietLog(true, items);
  }

  /**
   The scan reader lists for Maven's output what it lists for the bare tree, iff none of the lines
   between holds what it takes for a coordinate.
   */
  lemma ListLogged(items: seq<Item>, p: Project)
    requires WellFormedProject(p) && IsLogOf(items, p)
    requires !("[INFO]" <= p.group) && !IsLogNoise(p.group) && !IsDecoration(p.group[0])
    ensures ListFrom(true, LogLines(items)) == ListFrom(true, PrintProject(p))
       <==> forall i :: i in items && i.Chatter? ==> !IsLoud(i.text)
  {
    ProjectListed(p);
    ForestUnmarked([], p.children);
    assert forall l :: l in PrintProject(p) ==> !("[INFO]" <= l);
    ListMarked(true, PrintProject(p));
    FlatMarked(ProjectText(p));
    assert Marked(PrintProject(p))[0] == MARK + ProjectText(p);
    assert ReadFlat(MARK + ProjectText(p)) == ReadFlat(ProjectText(p));
    ListLog(items);
    LoudSomewhere(items);
  }
}
