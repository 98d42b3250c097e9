/** When a dependency tree is refused: which lines are unsupported, and which order of lines is. */
module MavenFailures {
  import opened Wrappers
  import opened Text
  import opened Coordinates
  import opened MavenTree
  import opened MavenRoundTrip
  import opened MavenFlatReader

  // ------------------------------------------------------------------ one line

  /** A coordinate of four to seven parts, each a word. */
  predicate IsCoordinate(parts: seq<string>) {
    4 <= |parts| <= 7 && forall i :: 0 <= i < |parts| ==> Word(parts[i])
  }

  function VersionPart(parts: seq<string>): string
    requires |parts| >= 4
  {
    if |parts| >= 6 then parts[4] else parts[3]
  }

  /** The third part must be `jar`, and with six parts or more the fourth is a classifier. */
  lemma CoordinateParts(parts: seq<string>)
    requires IsCoordinate(parts)
    ensures var t := Join(parts, ':');
            && t != "" && NoWhitespace(t) && t[0] == parts[0][0] && Trim(t) == t && TrimEnd(t) == t
            && ParseCoordinate(t) == Some(MavenCoordinate(parts[0], parts[1], VersionPart(parts)))
            && (HasJarType(t) <==> parts[2] == "jar") && (HasClassifier(t) <==> |parts| >= 6)
  {
    WordsText(parts);
    TrimNothing(Join(parts, ':'));
    forall i | 0 <= i < |parts| ensures Trim(parts[i]) == parts[i] != "" { TrimNothing(parts[i]); }
    ReadParts(Join(parts, ':'), parts);
  }

  lemma ReadParts(t: string, parts: seq<string>)
    requires |parts| >= 4 && Parts(t) == parts && forall i :: 0 <= i < |parts| ==> Trim(parts[i]) == parts[i] != ""
    ensures ParseCoordinate(t) == Some(MavenCoordinate(parts[0], parts[1], VersionPart(parts)))
    ensures (HasJarType(t) <==> parts[2] == "jar") && (HasClassifier(t) <==> |parts| >= 6)
  {
  }

  /** Any coordinate on a tree line: read, or refused for its type or classifier. */
  lemma ReadTreeLine(bars: seq<bool>, last: bool, parts: seq<string>)
    requires IsCoordinate(parts)
    ensures ReadLine(PrintLine(bars, last, Join(parts, ':')))
         == if parts[2] == "jar" && |parts| < 6
            then Entry(|bars| + 1, MavenCoordinate(parts[0], parts[1], parts[3]))
            else UnsupportedEntry
  {
    var t := Join(parts, ':');
    CoordinateParts(parts);
    NotOmitted(t);
    PrintedLineKept(bars, last, t);
    PrintedEntry(bars, last, t);
  }

  /** The same on a line of its own. */
  lemma ReadBareLine(parts: seq<string>)
    requires IsCoordinate(parts) && !LogLike(parts[0])
    ensures ReadLine(Join(parts, ':'))
         == if parts[2] == "jar" && |parts| < 6
            then Root(MavenCoordinate(parts[0], parts[1], parts[3]))
            else UnsupportedRoot
  {
    CoordinateParts(parts);
    JoinCons(parts, ':');
    BareKept(parts[0], Join(parts[1..], ':'), Join(parts, ':'));
    ReadKept(Join(parts, ':'), MavenCoordinate(parts[0], parts[1], VersionPart(parts)), parts[2] == "jar", |parts| >= 6);
  }

  lemma BareKept(group: string, rest: string, t: string)
    requires t == group + [':'] + rest && !LogLike(group) && NoWhitespace(t) && TrimEnd(t) == t
    ensures NormalizeLine(t) == Some(t) && !IsNoise(t) && TreeEntry(t) == None
  {
    PrefixOfGroup("[INFO]", group, rest);
    LevelOf(group, rest, t, t);
    NoiseOf(group, rest, t);
  }

  lemma ReadKept(t: string, c: Coordinate, jar: bool, classifier: bool)
    requires NormalizeLine(t) == Some(t) && !IsNoise(t) && TreeEntry(t) == None && Trim(t) == t && NoWhitespace(t)
    requires ParseCoordinate(t) == Some(c) && HasJarType(t) == jar && HasClassifier(t) == classifier
    ensures ReadLine(t) == if jar && !classifier then Root(c) else UnsupportedRoot
  {
  }

  /** The scan reader takes every type, and skips the classifier. */
  lemma ListTreeLine(bars: seq<bool>, last: bool, parts: seq<string>)
    requires IsCoordinate(parts) && !IsDecoration(parts[0][0])
    ensures ReadFlat(PrintLine(bars, last, Join(parts, ':')))
         == Content(true, Some(MavenCoordinate(parts[0], parts[1], VersionPart(parts))))
  {
    CoordinateParts(parts);
    FlatPrintLine(bars, last, Join(parts, ':'));
  }

  // ----------------------------------------------------------------- the whole file

  /** The depth of the last tree line before position `i`, or `d` if there is none. */
  function DepthBefore(d: nat, es: seq<Event>, i: nat): nat
    requires i <= |es|
  {
    if i == 0 then d else if es[i - 1].Entry? then es[i - 1].depth else DepthBefore(d, es, i - 1)
  }

  /** Behind the project line: only tree lines that are supported and skip no level. */
  ghost predicate IsTree(d: nat, es: seq<Event>) {
    && (forall i :: 0 <= i < |es| ==> es[i].Nothing? || es[i].Entry?)
    && (forall i :: 0 <= i < |es| && es[i].Entry? ==> es[i].depth <= DepthBefore(d, es, i) + 1)
  }

  lemma {:induction false} DepthBehind(d: nat, es: seq<Event>, i: nat)
    requires es != [] && i <= |es| - 1
    ensures DepthBefore(d, es, i + 1) == DepthBefore(DepthBefore(d, es, 1), es[1..], i)
  {
    if i > 0 { DepthBehind(d, es, i - 1); }
  }

  lemma TreeCons(d: nat, es: seq<Event>)
    requires es != []
    ensures IsTree(d, es) <==>
              && (es[0].Nothing? || (es[0].Entry? && es[0].depth <= d + 1))
              && IsTree(DepthBefore(d, es, 1), es[1..])
  {
    var rest, next := es[1..], DepthBefore(d, es, 1);
    forall i | 0 <= i < |rest| ensures DepthBefore(d, es, i + 1) == DepthBefore(next, rest, i) { DepthBehind(d, es, i); }
    if IsTree(d, es) {
      forall i | 0 <= i < |rest|
        ensures rest[i].Nothing? || (rest[i].Entry? && rest[i].depth <= DepthBefore(next, rest, i) + 1)
      {
        assert es[i + 1] == rest[i];
      }
    }
    if (es[0].Nothing? || (es[0].Entry? && es[0].depth <= d + 1)) && IsTree(next, rest) {
      forall i | 0 <= i < |es|
        ensures es[i].Nothing? || (es[i].Entry? && es[i].depth <= DepthBefore(d, es, i) + 1)
      {
        if i > 0 { assert es[i] == rest[i - 1]; }
      }
    }
  }

  lemma {:induction false} RunTree(s: State, es: seq<Event>)
    requires s.root.Some? && s.stack != []
    ensures RunEvents(s, es).Ok? <==> IsTree(|s.stack| - 1, es)
    ensures RunEvents(s, es).Ok? ==> RunEvents(s, es).value.root.Some?
    decreases |es|
  {
    if es != [] {
      TreeCons(|s.stack| - 1, es);
      if Step(s, es[0]).Ok? {
        RunTree(Step(s, es[0]).value, es[1..]);
      }
    }
  }

  /** The first project line stands at `r`, and no unsupported one before it. */
  ghost predicate ProjectAt(es: seq<Event>, r: nat) {
    r < |es| && es[r].Root? && forall i :: 0 <= i < r ==> !es[i].Root? && !es[i].UnsupportedRoot?
  }

  ghost predicate HasTree(es: seq<Event>) {
    exists r: nat :: ProjectAt(es, r) && IsTree(0, es[r + 1..])
  }

  lemma TreeAtFirst(es: seq<Event>)
    requires es != [] && (es[0].Root? || es[0].UnsupportedRoot?)
    ensures HasTree(es) <==> es[0].Root? && IsTree(0, es[1..])
  {
    assert forall r: nat :: ProjectAt(es, r) ==> r == 0;
    assert es[0].Root? ==> ProjectAt(es, 0);
  }

  lemma TreeBehindFirst(es: seq<Event>)
    requires es != [] && !es[0].Root? && !es[0].UnsupportedRoot?
    ensures HasTree(es) <==> HasTree(es[1..])
  {
    var rest := es[1..];
    if r: nat :| ProjectAt(es, r) && IsTree(0, es[r + 1..]) {
      assert ProjectAt(rest, r - 1) && rest[r - 1 + 1..] == es[r + 1..];
    }
    if r: nat :| ProjectAt(rest, r) && IsTree(0, rest[r + 1..]) {
      assert ProjectAt(es, r + 1) && es[r + 1 + 1..] == rest[r + 1..];
    }
  }

  lemma {:induction false} RunProject(es: seq<Event>)
    ensures RunEvents(EMPTY, es).Ok? && RunEvents(EMPTY, es).value.root.Some? <==> HasTree(es)
    decreases |es|
  {
    if es != [] {
      if es[0].Root? {
        TreeAtFirst(es);
        RunTree(Step(EMPTY, es[0]).value, es[1..]);
      } else if es[0].UnsupportedRoot? {
        TreeAtFirst(es);
      } else {
        TreeBehindFirst(es);
        RunProject(es[1..]);
      }
    }
  }

  /**
   Loading succeeds iff there is a project line, supported and the only one, and behind it every tree
   line is supported and at most one level below the tree line before it.
   */
  lemma LoadSucceeds(lines: seq<string>)
    ensures Load(lines).Ok? <==> HasTree(ReadLines(lines))
  {
    LoadReads(lines);
    RunProject(ReadLines(lines));
  }
}
