/** Excluding workspace members by path: what the string test says, and what the paths mean. */
module WorkspaceExclude {
  import opened Wrappers
  import opened Text
  import opened WorkspacePath

  predicate Below(a: string, b: string) {
    b == a || (a <= b && "/" <= b[|a|..])
  }

  /** The string test for an exclude without glob characters, on normalised paths. */
  predicate IsExcluded(member: string, exclude: string) {
    Below(TrimEndMatches(exclude, Is('/')), member)
  }

  /** The exclude encloses the member, segment by segment. */
  predicate Encloses(exclude: Lexical, member: Lexical) {
    exclude.rooted == member.rooted && exclude.segments <= member.segments
  }

  lemma BelowGivesPrefix(a: seq<string>, b: seq<string>, x: string, y: string)
    requires Split(x, '/') == a && Split(y, '/') == b && Below(x, y)
    ensures a <= b
  {
    if y != x {
      var rest := y[|x| + 1..];
      assert y == x + ['/'] + rest;
      SplitAppend(x, rest, '/');
    }
  }

  lemma PrefixGivesBelow(a: seq<string>, b: seq<string>)
    requires a != [] && a <= b
    ensures Below(Join(a, '/'), Join(b, '/'))
  {
    if a != b {
      var x, c := Join(a, '/'), b[|a|..];
      assert b == a + c;
      JoinAppend(a, c, '/');
      var y := x + ['/'] + Join(c, '/');
      assert y[..|x|] == x && y[|x|..] == ['/'] + Join(c, '/');
    }
  }

  /** On joined names, lying below as text is having the segments as a prefix. */
  lemma BelowIsPrefix(a: seq<string>, b: seq<string>)
    requires a != [] && b != []
    requires (forall i :: 0 <= i < |a| ==> '/' !in a[i]) && (forall i :: 0 <= i < |b| ==> '/' !in b[i])
    ensures Below(Join(a, '/'), Join(b, '/')) <==> a <= b
  {
    SplitJoin(a, '/');
    SplitJoin(b, '/');
    if Below(Join(a, '/'), Join(b, '/')) { BelowGivesPrefix(a, b, Join(a, '/'), Join(b, '/')); }
    if a <= b { PrefixGivesBelow(a, b); }
  }

  lemma {:induction false} JoinEndsInName(segments: seq<string>)
    requires segments != [] && forall i :: 0 <= i < |segments| ==> IsName(segments[i])
    ensures var t := Join(segments, '/'); t != "" && t[|t| - 1] != '/' && t[0] != '/'
  {
    if |segments| > 1 { JoinEndsInName(segments[1..]); }
  }

  lemma BelowUnderRoot(x: string, y: string)
    ensures Below("/" + x, "/" + y) <==> Below(x, y)
  {
    assert ("/" + x)[1..] == x && ("/" + y)[1..] == y;
    if "/" + x <= "/" + y { assert x == ("/" + y)[1..|x| + 1] == y[..|x|]; }
    if x <= y { assert ("/" + y)[..|x| + 1] == "/" + x && ("/" + y)[|x| + 1..] == y[|x|..]; }
  }

  lemma StartsWithDot(l: Lexical)
    requires Tidy(l)
    ensures !("." <= Render(l) && "/" <= Render(l)[1..])
  {
    var m := Render(l);
    if "." <= m && "/" <= m[1..] {
      assert m == "." + ['/'] + m[2..];
      SplitCons(".", '/', m[2..]);
      JoinStarts(l.segments);
      SplitNamesRendered(l, Join(l.segments, '/'));
    }
  }

  lemma ExcludeRootOrHere(member: Lexical, exclude: Lexical)
    requires Tidy(member) && Tidy(exclude) && exclude.segments == []
    ensures IsExcluded(Render(member), Render(exclude))
       <==> if exclude.rooted then member.rooted else member == HERE
  {
    SplitRendered(member);
    var m := Render(member);
    if exclude.rooted {
      assert Render(exclude) == "/" && TrimEndMatches("/", Is('/')) == "" by { assert "/"[..0] == ""; }
      assert m[0..] == m;
    } else {
      assert Render(exclude) == "." && TrimEndMatches(".", Is('/')) == ".";
      if "." <= m && "/" <= m[1..] { StartsWithDot(member); }
    }
  }

  lemma ExcludeNames(member: Lexical, exclude: Lexical)
    requires Tidy(member) && Tidy(exclude) && exclude.segments != []
    ensures IsExcluded(Render(member), Render(exclude)) <==> Encloses(exclude, member)
  {
    var x := Join(exclude.segments, '/');
    JoinEndsInName(exclude.segments);
    var e, m := Render(exclude), Render(member);
    assert TrimEndMatches(e, Is('/')) == e by { assert e[|e| - 1] == x[|x| - 1]; }
    assert e == if exclude.rooted then "/" + x else x;
    if member.segments == [] {
      NotBelowEmpty(exclude, member);
    } else {
      var y := Join(member.segments, '/');
      JoinEndsInName(member.segments);
      assert m == if member.rooted then "/" + y else y;
      BelowIsPrefix(exclude.segments, member.segments);
      BelowUnderRoot(x, y);
    }
  }

  lemma NotBelowEmpty(exclude: Lexical, member: Lexical)
    requires Tidy(exclude) && exclude.segments != [] && member.segments == []
    ensures !Below(Render(exclude), Render(member))
  {
    var x := Join(exclude.segments, '/');
    JoinEndsInName(exclude.segments);
    assert Render(member) == if member.rooted then "/" else ".";
    assert Render(exclude) == if exclude.rooted then "/" + x else x;
    SplitJoin(exclude.segments, '/');
    assert Split(".", '/') == ["."];
  }

  /** As segments: the test is prefix, except that the relative exclude `.` matches only itself. */
  lemma ExcludeSegments(member: Lexical, exclude: Lexical)
    requires Tidy(member) && Tidy(exclude)
    ensures IsExcluded(Render(member), Render(exclude))
       <==> Encloses(exclude, member) && !(exclude == HERE && member != HERE)
  {
    if exclude.segments == [] {
      ExcludeRootOrHere(member, exclude);
    } else {
      ExcludeNames(member, exclude);
    }
  }

  // ------------------------------------------------------------ what lies inside what

  function UpsFrom(segments: seq<string>, i: nat): (n: nat)
    requires i <= |segments| && forall k :: 0 <= k < i ==> segments[k] == ".."
    ensures n <= |segments|
    ensures forall k :: 0 <= k < n ==> segments[k] == ".."
    ensures n < |segments| ==> segments[n] != ".."
    decreases |segments| - i
  {
    if i < |segments| && segments[i] == ".." then UpsFrom(segments, i + 1) else i
  }

  /** The number of leading parent steps. */
  function Ups(segments: seq<string>): (n: nat)
    ensures n <= |segments|
    ensures forall k :: 0 <= k < n ==> segments[k] == ".."
    ensures n < |segments| ==> segments[n] != ".."
  {
    UpsFrom(segments, 0)
  }

  lemma UpsUnique(segments: seq<string>, n: nat, m: nat)
    requires n <= |segments| && (forall k :: 0 <= k < n ==> segments[k] == "..") && (n < |segments| ==> segments[n] != "..")
    requires m <= |segments| && (forall k :: 0 <= k < m ==> segments[k] == "..") && (m < |segments| ==> segments[m] != "..")
    ensures n == m
  {
  }

  /** The path ends in a named segment, not in a parent step and not at the start directory. */
  predicate EndsInName(l: Lexical) {
    Ups(l.segments) < |l.segments|
  }

  function Climb(dir: seq<string>, n: nat): seq<string> {
    dir[..if n <= |dir| then |dir| - n else 0]
  }

  lemma {:induction false} WalkUps(dir: seq<string>, segments: seq<string>)
    requires forall k :: 0 <= k < |segments| ==> segments[k] == ".."
    ensures Walk(dir, AsComponents(segments)) == Climb(dir, |segments|)
    decreases |segments|
  {
    if segments != [] {
      assert AsComponents(segments) == [ParentDir] + AsComponents(segments[1..]);
      WalkUps(Enter(dir, ParentDir), segments[1..]);
      assert Climb(Enter(dir, ParentDir), |segments| - 1) == Climb(dir, |segments|);
    }
  }

  lemma {:induction false} WalkNames(dir: seq<string>, segments: seq<string>)
    requires forall k :: 0 <= k < |segments| ==> segments[k] != ".."
    ensures Walk(dir, AsComponents(segments)) == dir + segments
    decreases |segments|
  {
    if segments != [] {
      assert AsComponents(segments) == [Normal(segments[0])] + AsComponents(segments[1..]);
      WalkNames(dir + [segments[0]], segments[1..]);
      assert dir + [segments[0]] + segments[1..] == dir + segments;
    } else {
      assert dir + segments == dir;
    }
  }

  lemma {:induction false} AsComponentsOf(a: seq<string>, b: seq<string>)
    ensures AsComponents(a + b) == AsComponents(a) + AsComponents(b)
    decreases |a|
  {
    if a == [] {
      assert a + b == b;
    } else {
      assert (a + b)[1..] == a[1..] + b;
      AsComponentsOf(a[1..], b);
    }
  }

  lemma WalkForm(dir: seq<string>, segments: seq<string>, n: nat)
    requires n <= |segments| && (forall k :: 0 <= k < n ==> segments[k] == "..")
    requires forall k :: n <= k < |segments| ==> segments[k] != ".."
    ensures Walk(dir, AsComponents(segments)) == Climb(dir, n) + segments[n..]
  {
    var ups, names := segments[..n], segments[n..];
    assert segments == ups + names;
    AsComponentsOf(ups, names);
    WalkAppend(dir, AsComponents(ups), AsComponents(names));
    WalkUps(dir, ups);
    WalkNames(Climb(dir, n), names);
  }

  lemma NamesFollowUps(l: Lexical)
    requires Tidy(l)
    ensures forall k :: Ups(l.segments) <= k < |l.segments| ==> l.segments[k] != ".."
    ensures l.rooted ==> Ups(l.segments) == 0
  {
  }

  lemma MeaningForm(dir: seq<string>, l: Lexical)
    requires Tidy(l)
    ensures Meaning(dir, l) == (if l.rooted then [] else Climb(dir, Ups(l.segments))) + l.segments[Ups(l.segments)..]
    ensures l.rooted ==> Ups(l.segments) == 0
  {
    NamesFollowUps(l);
    WalkForm(if l.rooted then [] else dir, l.segments, Ups(l.segments));
  }

  /** From every directory, the member lies in the excluded directory. */
  ghost predicate AlwaysInside(member: Lexical, exclude: Lexical) {
    forall dir :: Meaning(dir, exclude) <= Meaning(dir, member)
  }

  /** The same, read off the segments. */
  predicate Inside(member: Lexical, exclude: Lexical) {
    if EndsInName(exclude) then Encloses(exclude, member)
    else exclude.rooted || (!member.rooted && Ups(member.segments) <= Ups(exclude.segments))
  }

  lemma InsideIsAlways(member: Lexical, exclude: Lexical, dir: seq<string>)
    requires Tidy(member) && Tidy(exclude) && Inside(member, exclude)
    ensures Meaning(dir, exclude) <= Meaning(dir, member)
  {
    MeaningForm(dir, member);
    MeaningForm(dir, exclude);
    if EndsInName(exclude) {
      SameUps(exclude.segments, member.segments);
    }
  }

  lemma SameUps(a: seq<string>, b: seq<string>)
    requires a <= b && Ups(a) < |a|
    ensures Ups(a) == Ups(b) && a[Ups(a)..] <= b[Ups(a)..]
  {
    var n := Ups(a);
    assert forall k :: 0 <= k <= n ==> b[k] == a[k];
    UpsUnique(b, n, Ups(b));
  }

  /** A directory of `n` segments, all different from `name`. */
  function Apart(name: string, n: nat): (dir: seq<string>)
    ensures |dir| == n && forall i :: 0 <= i < n ==> dir[i] != name
  {
    seq(n, i => name + "x")
  }

  lemma NotInsideAcross(member: Lexical, exclude: Lexical) returns (dir: seq<string>)
    requires Tidy(member) && Tidy(exclude) && !Inside(member, exclude) && exclude.rooted != member.rooted
    ensures !(Meaning(dir, exclude) <= Meaning(dir, member))
  {
    MeaningForm([], exclude);
    MeaningForm([], member);
    if member.rooted {
      dir := Apart("", Ups(exclude.segments) + |member.segments| + 1);
      MeaningForm(dir, member);
      MeaningForm(dir, exclude);
      assert |Meaning(dir, exclude)| > |Meaning(dir, member)|;
    } else {
      dir := Apart(exclude.segments[0], Ups(member.segments) + 1);
      MeaningForm(dir, member);
      MeaningForm(dir, exclude);
      assert Meaning(dir, exclude)[0] == exclude.segments[0] && Meaning(dir, member)[0] == dir[0];
    }
  }

  lemma PrefixOfParts(a: seq<string>, b: seq<string>, n: nat)
    requires n <= |a| && n <= |b| && a[..n] == b[..n] && a[n..] <= b[n..]
    ensures a <= b
  {
    assert a == a[..n] + a[n..] && b == b[..n] + b[n..];
  }

  lemma NotInsideLevel(member: Lexical, exclude: Lexical)
    requires Tidy(member) && Tidy(exclude) && !Inside(member, exclude) && exclude.rooted == member.rooted
    requires Ups(member.segments) == Ups(exclude.segments)
    ensures !(Meaning([], exclude) <= Meaning([], member))
  {
    MeaningForm([], member);
    MeaningForm([], exclude);
    var n := Ups(member.segments);
    assert exclude.segments[..n] == member.segments[..n];
    assert Meaning([], exclude) == exclude.segments[n..] && Meaning([], member) == member.segments[n..];
    if exclude.segments[n..] <= member.segments[n..] { PrefixOfParts(exclude.segments, member.segments, n); }
  }

  lemma NotInsideRelative(member: Lexical, exclude: Lexical) returns (dir: seq<string>)
    requires Tidy(member) && Tidy(exclude) && !Inside(member, exclude) && !exclude.rooted && !member.rooted
    requires Ups(member.segments) != Ups(exclude.segments)
    ensures !(Meaning(dir, exclude) <= Meaning(dir, member))
  {
    var m, e := Ups(member.segments), Ups(exclude.segments);
    if m < e {
      dir := Apart(exclude.segments[e], e);
      MeaningForm(dir, member);
      MeaningForm(dir, exclude);
      assert Meaning(dir, exclude)[0] == exclude.segments[e] && Meaning(dir, member)[0] == dir[0];
    } else {
      dir := Apart(if m < |member.segments| then member.segments[m] else "", m);
      MeaningForm(dir, member);
      MeaningForm(dir, exclude);
      assert Meaning(dir, exclude)[0] == dir[0];
      assert Meaning(dir, member) == member.segments[m..];
    }
  }

  lemma InsideExact(member: Lexical, exclude: Lexical)
    requires Tidy(member) && Tidy(exclude)
    ensures AlwaysInside(member, exclude) <==> Inside(member, exclude)
  {
    if Inside(member, exclude) {
      forall dir ensures Meaning(dir, exclude) <= Meaning(dir, member) { InsideIsAlways(member, exclude, dir); }
    } else if exclude.rooted != member.rooted {
      var dir := NotInsideAcross(member, exclude);
    } else if Ups(member.segments) == Ups(exclude.segments) {
      NotInsideLevel(member, exclude);
    } else {
      MeaningForm([], member);
      MeaningForm([], exclude);
      var dir := NotInsideRelative(member, exclude);
    }
  }

  // --------------------------------------------------------------- when the test is right

  /** The string test says whether the member always lies inside the exclude. */
  ghost predicate IsRight(member: Lexical, exclude: Lexical) {
    IsExcluded(Render(member), Render(exclude)) <==> AlwaysInside(member, exclude)
  }

  /** For excludes that do not end in a name: the members on which the test is right nevertheless. */
  predicate Harmless(member: Lexical, exclude: Lexical) {
    if member.rooted then true
    else if exclude.rooted then false
    else if exclude == HERE then member == HERE || Ups(member.segments) > 0
    else Ups(member.segments) == Ups(exclude.segments)
  }

  lemma NamelessEncloses(member: Lexical, exclude: Lexical)
    requires Tidy(member) && Tidy(exclude) && !EndsInName(exclude) && !exclude.rooted && !member.rooted
    ensures exclude.segments <= member.segments <==> Ups(exclude.segments) <= Ups(member.segments)
  {
    var n := |exclude.segments|;
    assert Ups(exclude.segments) == n;
    if n <= Ups(member.segments) {
      assert member.segments[..n] == exclude.segments;
    }
    if exclude.segments <= member.segments {
      assert forall k :: 0 <= k < n ==> member.segments[k] == exclude.segments[k];
    }
  }

  /** The test is right iff the exclude ends in a name or the member is harmless; on absolute paths always. */
  lemma ExcludeExact(member: Lexical, exclude: Lexical)
    requires Tidy(member) && Tidy(exclude)
    ensures IsRight(member, exclude) <==> EndsInName(exclude) || Harmless(member, exclude)
    ensures exclude.rooted && member.rooted ==>
              IsExcluded(Render(member), Render(exclude)) == (exclude.segments <= member.segments) && IsRight(member, exclude)
  {
    ExcludeSegments(member, exclude);
    InsideExact(member, exclude);
    MeaningForm([], member);
    MeaningForm([], exclude);
    if !EndsInName(exclude) && !exclude.rooted && !member.rooted { NamelessEncloses(member, exclude); }
  }

  /** An exclude is handled rightly for every member iff it ends in a name. */
  lemma ExcludeSound(exclude: Lexical)
    requires Tidy(exclude)
    ensures (forall member :: Tidy(member) ==> IsRight(member, exclude)) <==> EndsInName(exclude)
  {
    if EndsInName(exclude) {
      forall member | Tidy(member) ensures IsRight(member, exclude) { ExcludeExact(member, exclude); }
    } else {
      var member := Lexical(false, exclude.segments + [if exclude == HERE then "x" else ".."]);
      member := if exclude.rooted then HERE else member;
      ParentsAreTidy(exclude, member);
      ExcludeExact(member, exclude);
    }
  }

  lemma ParentsAreTidy(exclude: Lexical, member: Lexical)
    requires Tidy(exclude) && !EndsInName(exclude)
    requires member == if exclude.rooted then HERE else Lexical(false, exclude.segments + [if exclude == HERE then "x" else ".."])
    ensures Tidy(member) && !Harmless(member, exclude)
  {
    if exclude.rooted {
      MeaningForm([], exclude);
    } else if exclude == HERE {
      UpsUnique(member.segments, 0, Ups(member.segments));
    } else {
      OneMoreUp(exclude, member);
    }
  }

  lemma OneMoreUp(exclude: Lexical, member: Lexical)
    requires Tidy(exclude) && !EndsInName(exclude) && !exclude.rooted
    requires member == Lexical(false, exclude.segments + [".."])
    ensures Tidy(member) && Ups(member.segments) == Ups(exclude.segments) + 1
  {
    var n := |exclude.segments|;
    assert forall k :: 0 <= k < n + 1 ==> member.segments[k] == "..";
    UpsUnique(member.segments, n + 1, Ups(member.segments));
    assert IsName("..");
  }

  /** Excluding a directory above: members still further up are excluded though they need not lie in it. */
  lemma ParentExcludeTooWide(member: Lexical, exclude: Lexical)
    requires Tidy(member) && Tidy(exclude) && !member.rooted && !exclude.rooted && exclude != HERE
    requires !EndsInName(exclude) && Ups(member.segments) > Ups(exclude.segments)
    ensures IsExcluded(Render(member), Render(exclude)) && !AlwaysInside(member, exclude)
  {
    ExcludeSegments(member, exclude);
    NamelessEncloses(member, exclude);
    InsideExact(member, exclude);
  }
}
