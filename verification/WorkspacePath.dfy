/**
 Lexical normalisation of Cargo workspace paths and the test for excluded members, on Unix paths.
 */
module WorkspacePath {
  import opened Wrappers
  import opened Text

  datatype Component = RootDir | CurDir | ParentDir | Normal(name: string)

  /** `Path::components`: repeated slashes and inner dots disappear, a leading dot stays. */
  function SegmentComponents(segments: seq<string>): seq<Component> {
    if segments == [] then []
    else
      var s, rest := segments[0], SegmentComponents(segments[1..]);
      if s == "" || s == "." then rest
      else [if s == ".." then ParentDir else Normal(s)] + rest
  }

  function Components(path: string): seq<Component> {
    (if "/" <= path then [RootDir] else if Split(path, '/')[0] == "." then [CurDir] else [])
    + SegmentComponents(Split(path, '/'))
  }

  /** A path with its dots resolved: rooted or not, and its segments. */
  datatype Lexical = Lexical(rooted: bool, segments: seq<string>)

  function Push(l: Lexical, c: Component): Lexical {
    match c
    case RootDir => l.(rooted := true)
    case CurDir => l
    case ParentDir =>
      if l.segments != [] && l.segments[|l.segments| - 1] != ".." then l.(segments := l.segments[..|l.segments| - 1])
      else if !l.rooted then l.(segments := l.segments + [".."])
      else l
    case Normal(name) => l.(segments := l.segments + [name])
  }

  function PushAll(l: Lexical, cs: seq<Component>): Lexical
    decreases |cs|
  {
    if cs == [] then l else PushAll(Push(l, cs[0]), cs[1..])
  }

  const HERE := Lexical(false, [])

  function Render(l: Lexical): string {
    var text := (if l.rooted then "/" else "") + Join(l.segments, '/');
    if text == "" then "." else text
  }

  function Resolve(path: string): Lexical {
    PushAll(HERE, Components(path))
  }

  method NormalizePath(path: string) returns (r: string)
    ensures r == Render(Resolve(path))
  {
    var components := Components(path);
    var hasRoot, segments: seq<string> := false, [];
    for i := 0 to |components|
      invariant PushAll(Lexical(hasRoot, segments), components[i..]) == Resolve(path)
    {
      assert components[i..][0] == components[i] && components[i..][1..] == components[i + 1..];
      match components[i] {
        case RootDir => hasRoot := true;
        case CurDir =>
        case ParentDir =>
          if segments != [] && segments[|segments| - 1] != ".." {
            segments := segments[..|segments| - 1];
          } else if !hasRoot {
            segments := segments + [".."];
          }
        case Normal(name) => segments := segments + [name];
      }
    }
    assert components[|components|..] == [];
    var normalized := if hasRoot then "/" else "";
    normalized := normalized + Join(segments, '/');
    r := if normalized == "" then "." else normalized;
  }

  // --------------------------------------------------------------- shape of the result

  predicate IsName(s: string) {
    s != "" && s != "." && '/' !in s
  }

  /** Parent steps form a leading run, and there are none under a root. */
  predicate Tidy(l: Lexical) {
    && (forall i :: 0 <= i < |l.segments| ==> IsName(l.segments[i]))
    && (forall i :: 0 <= i < |l.segments| && l.segments[i] == ".." ==>
          !l.rooted && forall j :: 0 <= j < i ==> l.segments[j] == "..")
  }

  predicate IsProper(c: Component) {
    c.Normal? ==> IsName(c.name) && c.name != ".."
  }

  lemma {:induction false} SegmentsProper(segments: seq<string>)
    requires forall i :: 0 <= i < |segments| ==> '/' !in segments[i]
    ensures forall c :: c in SegmentComponents(segments) ==> IsProper(c) && !c.RootDir?
  {
    if segments != [] { SegmentsProper(segments[1..]); }
  }

  lemma PushTidy(l: Lexical, c: Component)
    requires Tidy(l) && IsProper(c) && (c.RootDir? ==> l.segments == [])
    ensures Tidy(Push(l, c))
  {
    if c.ParentDir? && (l.segments == [] || l.segments[|l.segments| - 1] == "..") && !l.rooted {
      assert IsName("..");
    }
  }

  lemma {:induction false} PushAllTidy(l: Lexical, cs: seq<Component>)
    requires Tidy(l) && forall c :: c in cs ==> IsProper(c) && !c.RootDir?
    ensures Tidy(PushAll(l, cs))
    decreases |cs|
  {
    if cs != [] {
      assert cs[0] in cs && forall c :: c in cs[1..] ==> c in cs;
      PushTidy(l, cs[0]);
      PushAllTidy(Push(l, cs[0]), cs[1..]);
    }
  }

  lemma {:induction false} PushAllAppend(l: Lexical, a: seq<Component>, b: seq<Component>)
    ensures PushAll(l, a + b) == PushAll(PushAll(l, a), b)
    decreases |a|
  {
    if a == [] {
      assert a + b == b;
    } else {
      assert (a + b)[1..] == a[1..] + b;
      PushAllAppend(Push(l, a[0]), a[1..], b);
    }
  }

  function Start(path: string): Lexical {
    Lexical("/" <= path, [])
  }

  lemma ResolveFromStart(path: string)
    ensures Resolve(path) == PushAll(Start(path), SegmentComponents(Split(path, '/')))
  {
    var first := if "/" <= path then [RootDir] else if Split(path, '/')[0] == "." then [CurDir] else [];
    PushAllAppend(HERE, first, SegmentComponents(Split(path, '/')));
    assert first != [] ==> first[1..] == [];
  }

  /** `..` stays only as a leading run, and never under a root. */
  lemma ResolvedIsTidy(path: string)
    ensures Tidy(Resolve(path)) && (Resolve(path).rooted <==> "/" <= path)
  {
    JoinSplit(path, '/');
    SegmentsProper(Split(path, '/'));
    ResolveFromStart(path);
    PushAllTidy(Start(path), SegmentComponents(Split(path, '/')));
    PushKeepsRoot(Start(path), SegmentComponents(Split(path, '/')));
  }

  lemma {:induction false} PushKeepsRoot(l: Lexical, cs: seq<Component>)
    requires forall c :: c in cs ==> !c.RootDir?
    ensures PushAll(l, cs).rooted == l.rooted
    decreases |cs|
  {
    if cs != [] {
      assert cs[0] in cs && forall c :: c in cs[1..] ==> c in cs;
      PushKeepsRoot(Push(l, cs[0]), cs[1..]);
    }
  }

  // --------------------------------------------------------------------- idempotence

  function AsComponents(segments: seq<string>): seq<Component> {
    if segments == [] then [] else [if segments[0] == ".." then ParentDir else Normal(segments[0])] + AsComponents(segments[1..])
  }

  lemma {:induction false} NamesAreComponents(segments: seq<string>)
    requires forall i :: 0 <= i < |segments| ==> IsName(segments[i])
    ensures SegmentComponents(segments) == AsComponents(segments)
  {
    if segments != [] { NamesAreComponents(segments[1..]); }
  }

  /** Pushing the segments of a tidy path one by one rebuilds it. */
  lemma {:induction false} Rebuild(l: Lexical, n: nat)
    requires Tidy(l) && n <= |l.segments|
    ensures PushAll(Lexical(l.rooted, l.segments[..n]), AsComponents(l.segments[n..])) == l
    decreases |l.segments| - n
  {
    if n == |l.segments| {
      assert l.segments[n..] == [] && l.segments[..n] == l.segments;
    } else {
      var s, cs := l.segments[n], AsComponents(l.segments[n..]);
      assert l.segments[n..][0] == s && l.segments[n..][1..] == l.segments[n + 1..];
      assert cs[1..] == AsComponents(l.segments[n + 1..]);
      assert l.segments[..n] + [s] == l.segments[..n + 1];
      if s == ".." && n > 0 { assert l.segments[..n][n - 1] == ".."; }
      Rebuild(l, n + 1);
    }
  }

  lemma SplitEmptyRendered()
    ensures SegmentComponents(Split(".", '/')) == [] && SegmentComponents(Split("/", '/')) == []
  {
    assert Split(".", '/') == ["."] && ["."][1..] == [];
    assert "/" == "" + ['/'] + "";
    SplitCons("", '/', "");
    assert Split("", '/') == [""];
    assert [""] + [""] == ["", ""] && ["", ""][1..] == [""] && [""][1..] == [];
  }

  lemma SplitNamesRendered(l: Lexical, joined: string)
    requires l.segments != [] && joined == Join(l.segments, '/') && joined != "" && joined[0] != '/'
    requires forall i :: 0 <= i < |l.segments| ==> '/' !in l.segments[i]
    ensures Split(Render(l), '/') == if l.rooted then [""] + l.segments else l.segments
    ensures ("/" <= Render(l)) == l.rooted
  {
    SplitJoin(l.segments, '/');
    if l.rooted {
      assert Render(l) == "" + ['/'] + joined;
      SplitCons("", '/', joined);
    } else {
      assert Render(l) == joined;
    }
  }

  lemma SplitRendered(l: Lexical)
    requires Tidy(l)
    ensures ("/" <= Render(l)) == l.rooted
    ensures SegmentComponents(Split(Render(l), '/')) == AsComponents(l.segments)
  {
    if l.segments == [] {
      SplitEmptyRendered();
      assert Render(l) == if l.rooted then "/" else ".";
    } else {
      NamesAreComponents(l.segments);
      JoinStarts(l.segments);
      SplitNamesRendered(l, Join(l.segments, '/'));
      assert ([""] + l.segments)[1..] == l.segments;
    }
  }

  lemma JoinStarts(segments: seq<string>)
    requires segments != [] && segments[0] != ""
    ensures Join(segments, '/') != "" && Join(segments, '/')[0] == segments[0][0]
  {
  }

  /** Reading a rendered tidy path gives it back. */
  lemma ResolveRendered(l: Lexical)
    requires Tidy(l)
    ensures Resolve(Render(l)) == l
  {
    SplitRendered(l);
    ResolveFromStart(Render(l));
    Rebuild(l, 0);
    assert l.segments[..0] == [] && l.segments[0..] == l.segments;
  }

  /** Normalising twice is normalising once. */
  lemma NormalizeIdempotent(path: string)
    ensures Render(Resolve(Render(Resolve(path)))) == Render(Resolve(path))
  {
    ResolvedIsTidy(path);
    ResolveRendered(Resolve(path));
  }

  // ------------------------------------------------------------------------- meaning

  /** Where one component leads from an absolute directory; the parent of the root is the root. */
  function Enter(dir: seq<string>, c: Component): seq<string> {
    match c
    case RootDir => []
    case CurDir => dir
    case ParentDir => if dir == [] then [] else dir[..|dir| - 1]
    case Normal(name) => dir + [name]
  }

  function Walk(dir: seq<string>, cs: seq<Component>): seq<string>
    decreases |cs|
  {
    if cs == [] then dir else Walk(Enter(dir, cs[0]), cs[1..])
  }

  /** The directory a path denotes, seen from `dir`. */
  function Denotes(dir: seq<string>, path: string): seq<string> {
    Walk(dir, Components(path))
  }

  function Meaning(dir: seq<string>, l: Lexical): seq<string> {
    Walk(if l.rooted then [] else dir, AsComponents(l.segments))
  }

  lemma {:induction false} WalkAppend(dir: seq<string>, a: seq<Component>, b: seq<Component>)
    ensures Walk(dir, a + b) == Walk(Walk(dir, a), b)
    decreases |a|
  {
    if a == [] {
      assert a + b == b;
    } else {
      assert (a + b)[1..] == a[1..] + b;
      WalkAppend(Enter(dir, a[0]), a[1..], b);
    }
  }

  lemma {:induction false} AsComponentsAppend(a: seq<string>, s: string)
    ensures AsComponents(a + [s]) == AsComponents(a) + [if s == ".." then ParentDir else Normal(s)]
  {
    if a == [] {
      assert a + [s] == [s] && [s][1..] == [];
    } else {
      assert (a + [s])[1..] == a[1..] + [s];
      AsComponentsAppend(a[1..], s);
    }
  }

  lemma WalkOneMore(dir: seq<string>, segments: seq<string>, s: string)
    ensures Walk(dir, AsComponents(segments + [s]))
         == Enter(Walk(dir, AsComponents(segments)), if s == ".." then ParentDir else Normal(s))
  {
    var c := if s == ".." then ParentDir else Normal(s);
    AsComponentsAppend(segments, s);
    WalkAppend(dir, AsComponents(segments), [c]);
    assert [c][1..] == [];
  }

  /** Resolving one component keeps what the path denotes. */
  lemma PushMeaning(dir: seq<string>, l: Lexical, c: Component)
    requires Tidy(l) && IsProper(c) && (c.RootDir? ==> l.segments == [])
    ensures Meaning(dir, Push(l, c)) == Enter(Meaning(dir, l), c)
  {
    var from := if l.rooted then [] else dir;
    match c
    case RootDir =>
    case CurDir =>
    case Normal(name) => WalkOneMore(from, l.segments, name);
    case ParentDir =>
      if l.segments != [] && l.segments[|l.segments| - 1] != ".." {
        var front, last := l.segments[..|l.segments| - 1], l.segments[|l.segments| - 1];
        assert l.segments == front + [last];
        WalkOneMore(from, front, last);
      } else if !l.rooted {
        WalkOneMore(from, l.segments, "..");
      } else {
        assert l.segments == [];
      }
  }

  lemma {:induction false} PushAllMeaning(dir: seq<string>, l: Lexical, cs: seq<Component>)
    requires Tidy(l) && forall c :: c in cs ==> IsProper(c) && !c.RootDir?
    ensures Meaning(dir, PushAll(l, cs)) == Walk(Meaning(dir, l), cs)
    decreases |cs|
  {
    if cs != [] {
      assert cs[0] in cs && forall c :: c in cs[1..] ==> c in cs;
      PushTidy(l, cs[0]);
      PushMeaning(dir, l, cs[0]);
      PushAllMeaning(dir, Push(l, cs[0]), cs[1..]);
    }
  }

  lemma DenotesFromStart(dir: seq<string>, path: string)
    ensures Denotes(dir, path) == Walk(Meaning(dir, Start(path)), SegmentComponents(Split(path, '/')))
  {
    var first := if "/" <= path then [RootDir] else if Split(path, '/')[0] == "." then [CurDir] else [];
    WalkAppend(dir, first, SegmentComponents(Split(path, '/')));
    assert first != [] ==> first[1..] == [];
  }

  lemma DenotesMeaning(dir: seq<string>, path: string)
    ensures Denotes(dir, path) == Meaning(dir, Resolve(path))
  {
    JoinSplit(path, '/');
    SegmentsProper(Split(path, '/'));
    ResolveFromStart(path);
    PushAllMeaning(dir, Start(path), SegmentComponents(Split(path, '/')));
    DenotesFromStart(dir, path);
  }

  /** Normalisation does not change where a path leads, from any directory. */
  lemma NormalizeKeepsMeaning(dir: seq<string>, path: string)
    ensures Denotes(dir, Render(Resolve(path))) == Denotes(dir, path)
  {
    DenotesMeaning(dir, path);
    DenotesMeaning(dir, Render(Resolve(path)));
    ResolvedIsTidy(path);
    ResolveRendered(Resolve(path));
  }
}
