/** The order in which the lines of included requirements files are collected. */
module EntryOrder {
  import opened Graph
  import opened RequirementFiles

  /**
   The entry lines of a file and its includes, each file expanded in place where it is first
   included; with the files visited afterwards.
   */
  function ExpandFile(fs: FileSystem, f: FileId, visited: set<FileId>): (r: (seq<Tag>, set<FileId>))
    ensures visited <= r.1
    decreases |fs.Keys - visited|, 0
  {
    if f in visited then ([], visited)
    else if f !in fs then ([], visited + {f})
    else
      CountShrinks(fs.Keys, visited, visited + {f}, f);
      ExpandLines(fs, f, 0, visited + {f})
  }

  function ExpandLines(fs: FileSystem, f: FileId, i: nat, visited: set<FileId>): (r: (seq<Tag>, set<FileId>))
    requires f in fs && i <= |fs[f]|
    ensures visited <= r.1
    decreases |fs.Keys - visited|, 1 + |fs[f]| - i
  {
    if i == |fs[f]| then ([], visited)
    else if fs[f][i].Include? then
      var (nested, mid) := ExpandFile(fs, fs[f][i].target, visited);
      CountSubset(fs.Keys - mid, fs.Keys - visited);
      var (rest, after) := ExpandLines(fs, f, i + 1, mid);
      (nested + rest, after)
    else
      var (rest, after) := ExpandLines(fs, f, i + 1, visited);
      ((if IsEntryLine(fs[f][i]) then [Tag(f, i)] else []) + rest, after)
  }

  /** The first `i` lines of `f` have been expanded to `tags`. */
  ghost predicate Expanding(fs: FileSystem, f: FileId, i: nat, start: set<FileId>, tags: seq<Tag>, visited: set<FileId>) {
    && f in fs && i <= |fs[f]|
    && var rest := ExpandLines(fs, f, i, visited);
       ExpandFile(fs, f, start) == (tags + rest.0, rest.1)
  }

  lemma ExpandingStart(fs: FileSystem, f: FileId, start: set<FileId>)
    requires f in fs && f !in start
    ensures Expanding(fs, f, 0, start, [], start + {f})
  {
    assert [] + ExpandLines(fs, f, 0, start + {f}).0 == ExpandLines(fs, f, 0, start + {f}).0;
  }

  lemma ExpandingFollows(fs: FileSystem, f: FileId, i: nat, start: set<FileId>, tags: seq<Tag>, mid: set<FileId>,
                         more: seq<Tag>, now: set<FileId>)
    requires Expanding(fs, f, i, start, tags, mid) && i < |fs[f]| && fs[f][i].Include?
    requires ExpandFile(fs, fs[f][i].target, mid) == (more, now)
    ensures Expanding(fs, f, i + 1, start, tags + more, now)
  {
    var rest := ExpandLines(fs, f, i + 1, now).0;
    assert tags + (more + rest) == tags + more + rest;
  }

  lemma ExpandingReads(fs: FileSystem, f: FileId, i: nat, start: set<FileId>, tags: seq<Tag>, visited: set<FileId>)
    requires Expanding(fs, f, i, start, tags, visited) && i < |fs[f]| && !fs[f][i].Include?
    ensures Expanding(fs, f, i + 1, start, tags + if IsEntryLine(fs[f][i]) then [Tag(f, i)] else [], visited)
  {
    var one, rest := if IsEntryLine(fs[f][i]) then [Tag(f, i)] else [], ExpandLines(fs, f, i + 1, visited).0;
    assert tags + (one + rest) == tags + one + rest;
  }

  lemma ExpandingEnds(fs: FileSystem, f: FileId, start: set<FileId>, tags: seq<Tag>, visited: set<FileId>)
    requires f in fs && Expanding(fs, f, |fs[f]|, start, tags, visited)
    ensures ExpandFile(fs, f, start) == (tags, visited)
  {
    assert tags + [] == tags;
  }

  // ---------------------------------------------------- what the order means for the lines

  /** The tags of an expanded file are the entry lines of the files visited on the way. */
  ghost predicate TagsOf(fs: FileSystem, tags: seq<Tag>, files: set<FileId>) {
    forall t :: t in tags <==> TagOk(fs, t) && t.file in files
  }

  ghost predicate ReachedFrom(fs: FileSystem, f: FileId, files: set<FileId>) {
    forall g :: g in files ==> EntryFile(fs, f, g)
  }

  /** Some line of `f` between two positions includes a file from which `g` is reached. */
  ghost predicate ReachedBetween(fs: FileSystem, f: FileId, from: nat, to: nat, g: FileId) {
    f in fs && exists j :: from <= j < to && j < |fs[f]| && fs[f][j].Include? && EntryFile(fs, fs[f][j].target, g)
  }

  ghost predicate LineTagsOf(fs: FileSystem, f: FileId, i: nat, tags: seq<Tag>, files: set<FileId>) {
    forall t :: t in tags <==> TagOk(fs, t) && ((t.file == f && t.index >= i) || t.file in files)
  }

  lemma {:induction false} FileTags(fs: FileSystem, f: FileId, visited: set<FileId>)
    ensures var r := ExpandFile(fs, f, visited);
            TagsOf(fs, r.0, r.1 - visited) && ReachedFrom(fs, f, r.1 - visited) && f in r.1
    decreases |fs.Keys - visited|, 0
  {
    ReachableSelf(EntryGraph(fs), f);
    if f !in visited && f in fs {
      CountShrinks(fs.Keys, visited, visited + {f}, f);
      LineTags(fs, f, 0, visited + {f});
      var r := ExpandLines(fs, f, 0, visited + {f});
      assert r.1 - visited == (r.1 - (visited + {f})) + {f};
      forall g | g in r.1 - (visited + {f}) ensures EntryFile(fs, f, g) {
        var j :| 0 <= j < |fs[f]| && fs[f][j].Include? && EntryFile(fs, fs[f][j].target, g);
        assert fs[f][j] in fs[f];
        assert Edge(EntryGraph(fs), f, fs[f][j].target);
        ReachableEdge(EntryGraph(fs), f, fs[f][j].target);
        ReachableTransitive(EntryGraph(fs), f, fs[f][j].target, g);
      }
    }
  }

  lemma {:induction false} LineTags(fs: FileSystem, f: FileId, i: nat, visited: set<FileId>)
    requires f in fs && f in visited && i <= |fs[f]|
    ensures var r := ExpandLines(fs, f, i, visited);
            && LineTagsOf(fs, f, i, r.0, r.1 - visited)
            && forall g :: g in r.1 - visited ==> ReachedBetween(fs, f, i, |fs[f]|, g)
    decreases |fs.Keys - visited|, 1 + |fs[f]| - i
  {
    if i < |fs[f]| {
      if fs[f][i].Include? {
        FileTags(fs, fs[f][i].target, visited);
        var nested := ExpandFile(fs, fs[f][i].target, visited);
        CountSubset(fs.Keys - nested.1, fs.Keys - visited);
        LineTags(fs, f, i + 1, nested.1);
        IncludeTags(fs, f, i, visited, nested, ExpandLines(fs, f, i + 1, nested.1));
      } else {
        LineTags(fs, f, i + 1, visited);
        EntryTags(fs, f, i, visited, ExpandLines(fs, f, i + 1, visited));
      }
    }
  }

  lemma IncludeTags(fs: FileSystem, f: FileId, i: nat, visited: set<FileId>,
                    nested: (seq<Tag>, set<FileId>), rest: (seq<Tag>, set<FileId>))
    requires f in fs && f in visited && i < |fs[f]| && fs[f][i].Include? && visited <= nested.1 <= rest.1
    requires TagsOf(fs, nested.0, nested.1 - visited) && ReachedFrom(fs, fs[f][i].target, nested.1 - visited)
    requires LineTagsOf(fs, f, i + 1, rest.0, rest.1 - nested.1)
    requires forall g :: g in rest.1 - nested.1 ==> ReachedBetween(fs, f, i + 1, |fs[f]|, g)
    ensures LineTagsOf(fs, f, i, nested.0 + rest.0, rest.1 - visited)
    ensures forall g :: g in rest.1 - visited ==> ReachedBetween(fs, f, i, |fs[f]|, g)
  {
    forall t ensures t in nested.0 + rest.0 <==>
      TagOk(fs, t) && ((t.file == f && t.index >= i) || t.file in rest.1 - visited)
    {
      assert t in nested.0 + rest.0 <==> t in nested.0 || t in rest.0;
    }
    forall g | g in rest.1 - visited ensures ReachedBetween(fs, f, i, |fs[f]|, g) {
      if g !in nested.1 {
        assert g in rest.1 - nested.1;
        assert ReachedBetween(fs, f, i + 1, |fs[f]|, g);
      } else {
        assert EntryFile(fs, fs[f][i].target, g);
      }
    }
  }

  lemma EntryTags(fs: FileSystem, f: FileId, i: nat, visited: set<FileId>, rest: (seq<Tag>, set<FileId>))
    requires f in fs && f in visited && i < |fs[f]| && !fs[f][i].Include?
    requires LineTagsOf(fs, f, i + 1, rest.0, rest.1 - visited)
    requires forall g :: g in rest.1 - visited ==> ReachedBetween(fs, f, i + 1, |fs[f]|, g)
    ensures LineTagsOf(fs, f, i, (if IsEntryLine(fs[f][i]) then [Tag(f, i)] else []) + rest.0, rest.1 - visited)
    ensures forall g :: g in rest.1 - visited ==> ReachedBetween(fs, f, i, |fs[f]|, g)
  {
    var one := if IsEntryLine(fs[f][i]) then [Tag(f, i)] else [];
    forall t ensures t in one + rest.0 <==>
      TagOk(fs, t) && ((t.file == f && t.index >= i) || t.file in rest.1 - visited)
    {
      assert t in one + rest.0 <==> t in one || t in rest.0;
      assert t.file == f && t.index == i ==> t == Tag(f, i);
    }
    forall g | g in rest.1 - visited ensures ReachedBetween(fs, f, i, |fs[f]|, g) {
      assert ReachedBetween(fs, f, i + 1, |fs[f]|, g);
    }
  }

  /** What the first `i` lines of `f` contribute. */
  ghost predicate Contributes(fs: FileSystem, f: FileId, i: nat, start: set<FileId>, tags: seq<Tag>, visited: set<FileId>) {
    && start + {f} <= visited
    && (forall t :: t in tags <==> TagOk(fs, t) && ((t.file == f && t.index < i) || t.file in visited - start - {f}))
    && (forall g :: g in visited - start - {f} ==> ReachedBetween(fs, f, 0, i, g))
  }

  lemma {:induction false} PrefixOf(fs: FileSystem, f: FileId, i: nat, start: set<FileId>)
    returns (tags: seq<Tag>, visited: set<FileId>)
    requires f in fs && f !in start && i <= |fs[f]|
    ensures Expanding(fs, f, i, start, tags, visited) && Contributes(fs, f, i, start, tags, visited)
  {
    if i == 0 {
      tags, visited := [], start + {f};
      ExpandingStart(fs, f, start);
      assert visited - start - {f} == {};
    } else {
      tags, visited := PrefixOf(fs, f, i - 1, start);
      if fs[f][i - 1].Include? {
        var nested := ExpandFile(fs, fs[f][i - 1].target, visited);
        FileTags(fs, fs[f][i - 1].target, visited);
        ExpandingFollows(fs, f, i - 1, start, tags, visited, nested.0, nested.1);
        ContributesInclude(fs, f, i - 1, start, tags, visited, nested);
        tags, visited := tags + nested.0, nested.1;
      } else {
        ExpandingReads(fs, f, i - 1, start, tags, visited);
        ContributesLine(fs, f, i - 1, start, tags, visited);
        tags := tags + if IsEntryLine(fs[f][i - 1]) then [Tag(f, i - 1)] else [];
      }
    }
  }

  lemma ContributesInclude(fs: FileSystem, f: FileId, i: nat, start: set<FileId>, tags: seq<Tag>, visited: set<FileId>,
                           nested: (seq<Tag>, set<FileId>))
    requires f in fs && i < |fs[f]| && fs[f][i].Include? && Contributes(fs, f, i, start, tags, visited)
    requires visited <= nested.1 && TagsOf(fs, nested.0, nested.1 - visited)
    requires ReachedFrom(fs, fs[f][i].target, nested.1 - visited)
    ensures Contributes(fs, f, i + 1, start, tags + nested.0, nested.1)
  {
    forall t ensures t in tags + nested.0 <==>
      TagOk(fs, t) && ((t.file == f && t.index < i + 1) || t.file in nested.1 - start - {f})
    {
      assert t in tags + nested.0 <==> t in tags || t in nested.0;
    }
    forall g | g in nested.1 - start - {f} ensures ReachedBetween(fs, f, 0, i + 1, g) {
      if g in visited { assert ReachedBetween(fs, f, 0, i, g); }
    }
  }

  lemma ContributesLine(fs: FileSystem, f: FileId, i: nat, start: set<FileId>, tags: seq<Tag>, visited: set<FileId>)
    requires f in fs && i < |fs[f]| && !fs[f][i].Include? && Contributes(fs, f, i, start, tags, visited)
    ensures Contributes(fs, f, i + 1, start, tags + if IsEntryLine(fs[f][i]) then [Tag(f, i)] else [], visited)
  {
    var one := if IsEntryLine(fs[f][i]) then [Tag(f, i)] else [];
    forall t ensures t in tags + one <==>
      TagOk(fs, t) && ((t.file == f && t.index < i + 1) || t.file in visited - start - {f})
    {
      assert t in tags + one <==> t in tags || t in one;
      assert t.file == f && t.index == i ==> t == Tag(f, i);
    }
    forall g | g in visited - start - {f} ensures ReachedBetween(fs, f, 0, i + 1, g) {
      assert ReachedBetween(fs, f, 0, i, g);
    }
  }

  /** Line `i` is the first of the file that leads to `g`, which it includes. */
  ghost predicate FirstIncludes(fs: FileSystem, f: FileId, i: nat, g: FileId) {
    f in fs && i < |fs[f]| && fs[f][i] == Include(g) && g != f && !ReachedBetween(fs, f, 0, i, g)
  }

  /** The entries of a file stand where it is first included: behind the lines above, before the lines below. */
  ghost predicate InPlace(fs: FileSystem, f: FileId, tags: seq<Tag>) {
    forall i: nat, g, k, l ::
      FirstIncludes(fs, f, i, g) && 0 <= k < |tags| && 0 <= l < |tags| && tags[k].file == f && tags[l].file == g ==>
        (tags[k].index < i ==> k < l) && (tags[k].index > i ==> l < k)
  }

  lemma BlocksInPlace(fs: FileSystem, f: FileId, i: nat, g: FileId, a: seq<Tag>, b: seq<Tag>, c: seq<Tag>, k: nat, l: nat)
    requires k < |a + b + c| && l < |a + b + c| && (a + b + c)[k].file == f && (a + b + c)[l].file == g && f != g
    requires forall t :: t in a ==> t.file != g && (t.file == f ==> t.index < i)
    requires forall t :: t in b ==> t.file != f
    requires forall t :: t in c ==> t.file != g && (t.file == f ==> t.index > i)
    ensures ((a + b + c)[k].index < i ==> k < l) && ((a + b + c)[k].index > i ==> l < k)
  {
    var tags := a + b + c;
    forall x | 0 <= x < |a| ensures tags[x] in a { assert tags[x] == a[x]; }
    forall x | |a| <= x < |a| + |b| ensures tags[x] in b { assert tags[x] == b[x - |a|]; }
    forall x | |a| + |b| <= x < |tags| ensures tags[x] in c { assert tags[x] == c[x - |a| - |b|]; }
  }

  lemma ExpandedInPlace(fs: FileSystem, root: FileId)
    ensures InPlace(fs, root, ExpandFile(fs, root, {}).0)
  {
    var tags := ExpandFile(fs, root, {}).0;
    forall i: nat, g, k, l | FirstIncludes(fs, root, i, g) && 0 <= k < |tags| && 0 <= l < |tags| && tags[k].file == root && tags[l].file == g
      ensures (tags[k].index < i ==> k < l) && (tags[k].index > i ==> l < k)
    {
      var a, visited := PrefixOf(fs, root, i, {});
      var nested := ExpandFile(fs, g, visited);
      FileTags(fs, g, visited);
      var rest := ExpandLines(fs, root, i + 1, nested.1);
      LineTags(fs, root, i + 1, nested.1);
      assert g !in visited;
      assert tags == a + nested.0 + rest.0 by { assert a + (nested.0 + rest.0) == a + nested.0 + rest.0; }
      BlocksInPlace(fs, root, i, g, a, nested.0, rest.0, k, l);
    }
  }
}
