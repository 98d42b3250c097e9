/** What a walk over requirements files has done, completely, partway, or when it stopped. */
module EntryWalk {
  import opened Graph
  import opened Constraints
  import opened RequirementFiles
  import opened ConstraintWalk

  datatype Snapshot = Snapshot(entryFiles: set<FileId>, constraintFiles: set<FileId>, seen: set<Entry>)

  /** Between two constraint walks: every visited constraint file has been read to its end. */
  ghost predicate Settled(fs: FileSystem, s: Snapshot) {
    && s.seen == LinesOfFiles(fs, s.constraintFiles)
    && s.constraintFiles <= fs.Keys
    && Closed(ConstraintGraph(fs), s.constraintFiles)
  }

  ghost predicate Gathered(fs: FileSystem, f: FileId, s: Snapshot, g: FileId) {
    && g in fs
    && IncludeTargets(fs[g]) <= s.entryFiles
    && ConstrainTargets(fs[g]) <= s.constraintFiles
    && EntryFile(fs, f, g)
  }

  ghost predicate ConstraintsFrom(fs: FileSystem, f: FileId, before: Snapshot, now: Snapshot) {
    && before.constraintFiles <= now.constraintFiles
    && forall g :: g in now.constraintFiles - before.constraintFiles ==> ConstraintFile(fs, f, g)
  }

  /** A completed entry walk from `f`; `tags` lists exactly the entry lines of the newly visited files. */
  ghost predicate Collected(fs: FileSystem, f: FileId, before: Snapshot, now: Snapshot, tags: seq<Tag>) {
    && f in now.entryFiles && before.entryFiles <= now.entryFiles
    && (forall g :: g in now.entryFiles - before.entryFiles ==> Gathered(fs, f, now, g))
    && ConstraintsFrom(fs, f, before, now)
    && InFileOrder(tags)
    && (forall t :: t in tags <==> TagOk(fs, t) && t.file in now.entryFiles - before.entryFiles)
  }

  ghost predicate LinesFrom(fs: FileSystem, f: FileId, seenBefore: set<Entry>, seenNow: set<Entry>) {
    forall e :: e in seenNow - seenBefore ==> exists g :: g in fs && ConstraintFile(fs, f, g) && e in PackageLines(fs[g])
  }

  /** An entry walk that stopped: a file it needs is missing, or the constraint lines contradict each other. */
  ghost predicate Stopped(fs: FileSystem, f: FileId, seenBefore: set<Entry>, seenNow: set<Entry>) {
    && LinesFrom(fs, f, seenBefore, seenNow)
    && (!Consistent(seenNow) || exists g :: (EntryFile(fs, f, g) || ConstraintFile(fs, f, g)) && g !in fs)
  }

  ghost predicate Collecting(fs: FileSystem, f: FileId, i: nat, before: Snapshot, now: Snapshot, tags: seq<Tag>) {
    && f in fs && i <= |fs[f]|
    && f in now.entryFiles && f !in before.entryFiles && before.entryFiles <= now.entryFiles
    && (forall g :: g in now.entryFiles - before.entryFiles - {f} ==> Gathered(fs, f, now, g))
    && ConstraintsFrom(fs, f, before, now)
    && IncludeTargets(fs[f][..i]) <= now.entryFiles
    && ConstrainTargets(fs[f][..i]) <= now.constraintFiles
    && InFileOrder(tags)
    && (forall t :: t in tags <==>
          TagOk(fs, t) && ((t.file == f && t.index < i) || t.file in now.entryFiles - before.entryFiles - {f}))
  }

  lemma CollectingStart(fs: FileSystem, f: FileId, before: Snapshot, now: Snapshot)
    requires f in fs && f !in before.entryFiles
    requires now == before.(entryFiles := before.entryFiles + {f})
    ensures Collecting(fs, f, 0, before, now, [])
  {
    assert now.entryFiles - before.entryFiles - {f} == {};
  }

  /** Lines seen by a partial entry walk come from constraint files of `f`. */
  lemma CollectingSeen(fs: FileSystem, f: FileId, before: Snapshot, now: Snapshot)
    requires ConstraintsFrom(fs, f, before, now) && Settled(fs, before) && Settled(fs, now)
    ensures LinesFrom(fs, f, before.seen, now.seen)
  {
    forall e | e in now.seen - before.seen
      ensures exists g :: g in fs && ConstraintFile(fs, f, g) && e in PackageLines(fs[g])
    {
      var g, l :| g in now.constraintFiles && g in fs && l in fs[g] && l.Package? && l.entry == e;
      assert g !in before.constraintFiles;
      assert e in PackageLines(fs[g]);
    }
  }

  lemma IncludedFile(fs: FileSystem, f: FileId, i: nat)
    requires f in fs && i < |fs[f]| && fs[f][i].Include?
    ensures EntryFile(fs, f, fs[f][i].target)
  {
    assert fs[f][i] in fs[f];
    assert Edge(EntryGraph(fs), f, fs[f][i].target);
    ReachableEdge(EntryGraph(fs), f, fs[f][i].target);
  }

  lemma ConstrainedFile(fs: FileSystem, f: FileId, i: nat, g: FileId)
    requires f in fs && i < |fs[f]| && fs[f][i].Constrain?
    requires Reachable(ConstraintGraph(fs), fs[f][i].target, g)
    ensures ConstraintFile(fs, f, g)
  {
    assert fs[f][i] in fs[f];
    ReachableSelf(EntryGraph(fs), f);
    assert NamedBy(fs, f, f, fs[f][i].target);
  }

  lemma CollectedNothing(fs: FileSystem, f: FileId, s: Snapshot)
    requires f in s.entryFiles
    ensures Collected(fs, f, s, s, [])
  {
    assert s.entryFiles - s.entryFiles == {};
  }

  lemma LabelsAppend(fs: FileSystem, a: seq<Tag>, xs: seq<Entry>, b: seq<Tag>, ys: seq<Entry>)
    requires Labels(fs, a, xs) && Labels(fs, b, ys)
    ensures Labels(fs, a + b, xs + ys)
  {
  }

  lemma InFileOrderAppend(a: seq<Tag>, b: seq<Tag>)
    requires InFileOrder(a) && InFileOrder(b)
    requires forall s, t :: s in a && t in b && s.file == t.file ==> s.index < t.index
    ensures InFileOrder(a + b)
  {
    forall i, j | 0 <= i < j < |a + b| && (a + b)[i].file == (a + b)[j].file
      ensures (a + b)[i].index < (a + b)[j].index
    {
      if j < |a| {
      } else if i < |a| {
        assert a[i] in a && b[j - |a|] in b;
      } else {
        assert b[i - |a|].index < b[j - |a|].index;
      }
    }
  }

  lemma GatheredThrough(fs: FileSystem, f: FileId, i: nat, before: Snapshot, mid: Snapshot, now: Snapshot,
                        tags: seq<Tag>, more: seq<Tag>, g: FileId)
    requires Collecting(fs, f, i, before, mid, tags)
    requires i < |fs[f]| && fs[f][i].Include?
    requires Collected(fs, fs[f][i].target, mid, now, more)
    requires g in now.entryFiles - before.entryFiles - {f}
    ensures Gathered(fs, f, now, g)
  {
    if g in mid.entryFiles {
      assert Gathered(fs, f, mid, g);
    } else {
      assert Gathered(fs, fs[f][i].target, now, g);
      IncludedFile(fs, f, i);
      ReachableTransitive(EntryGraph(fs), f, fs[f][i].target, g);
    }
  }

  lemma ConstraintsThrough(fs: FileSystem, f: FileId, i: nat, before: Snapshot, mid: Snapshot, now: Snapshot)
    requires f in fs && i < |fs[f]| && fs[f][i].Include?
    requires ConstraintsFrom(fs, f, before, mid) && ConstraintsFrom(fs, fs[f][i].target, mid, now)
    ensures ConstraintsFrom(fs, f, before, now)
  {
    forall g | g in now.constraintFiles - before.constraintFiles ensures ConstraintFile(fs, f, g) {
      if g !in mid.constraintFiles {
        IncludedFile(fs, f, i);
        ConstraintFileThroughInclude(fs, f, fs[f][i].target, g);
      }
    }
  }

  lemma CollectingFollows(fs: FileSystem, f: FileId, i: nat, before: Snapshot, mid: Snapshot, now: Snapshot,
                          tags: seq<Tag>, more: seq<Tag>)
    requires Collecting(fs, f, i, before, mid, tags)
    requires i < |fs[f]| && fs[f][i].Include?
    requires Collected(fs, fs[f][i].target, mid, now, more)
    ensures Collecting(fs, f, i + 1, before, now, tags + more)
  {
    PrefixStep(fs[f], i);
    forall g | g in now.entryFiles - before.entryFiles - {f} ensures Gathered(fs, f, now, g) {
      GatheredThrough(fs, f, i, before, mid, now, tags, more, g);
    }
    ConstraintsThrough(fs, f, i, before, mid, now);
    InFileOrderAppend(tags, more);
    forall t ensures t in tags + more <==>
      TagOk(fs, t) && ((t.file == f && t.index < i + 1) || t.file in now.entryFiles - before.entryFiles - {f})
    {
      assert t in tags + more <==> t in tags || t in more;
    }
  }

  lemma CollectingConstrains(fs: FileSystem, f: FileId, i: nat, before: Snapshot, mid: Snapshot, now: Snapshot,
                             tags: seq<Tag>)
    requires Collecting(fs, f, i, before, mid, tags) && Settled(fs, mid)
    requires i < |fs[f]| && fs[f][i].Constrain? && now.entryFiles == mid.entryFiles
    requires Walked(fs, fs[f][i].target, mid.constraintFiles, now.constraintFiles, mid.seen, now.seen)
    ensures Collecting(fs, f, i + 1, before, now, tags) && Settled(fs, now)
  {
    PrefixStep(fs[f], i);
    forall g | g in now.entryFiles - before.entryFiles - {f} ensures Gathered(fs, f, now, g) {
      assert Gathered(fs, f, mid, g);
    }
    forall g | g in now.constraintFiles - before.constraintFiles ensures ConstraintFile(fs, f, g) {
      if g !in mid.constraintFiles {
        assert Finished(fs, fs[f][i].target, now.constraintFiles, g);
        ConstrainedFile(fs, f, i, g);
      }
    }
    SettledAfterWalk(fs, fs[f][i].target, mid, now);
  }

  lemma SettledAfterWalk(fs: FileSystem, f: FileId, mid: Snapshot, now: Snapshot)
    requires Settled(fs, mid)
    requires Walked(fs, f, mid.constraintFiles, now.constraintFiles, mid.seen, now.seen)
    ensures Settled(fs, now)
  {
    LinesOfUnion(fs, mid.constraintFiles, now.constraintFiles - mid.constraintFiles);
    assert mid.constraintFiles + (now.constraintFiles - mid.constraintFiles) == now.constraintFiles;
    forall g | g in now.constraintFiles
      ensures g in fs && ConstraintGraph(fs)[g] <= now.constraintFiles
    {
      if g !in mid.constraintFiles { assert Finished(fs, f, now.constraintFiles, g); }
    }
  }

  /** A line that is not followed contributes its own entry, if it has one. */
  lemma CollectingReads(fs: FileSystem, f: FileId, i: nat, before: Snapshot, now: Snapshot, tags: seq<Tag>)
    requires Collecting(fs, f, i, before, now, tags)
    requires i < |fs[f]| && !fs[f][i].Include? && !fs[f][i].Constrain?
    ensures Collecting(fs, f, i + 1, before, now, tags + if IsEntryLine(fs[f][i]) then [Tag(f, i)] else [])
  {
    PrefixStep(fs[f], i);
    var more := if IsEntryLine(fs[f][i]) then [Tag(f, i)] else [];
    InFileOrderAppend(tags, more);
    forall t ensures t in tags + more <==>
      TagOk(fs, t) && ((t.file == f && t.index < i + 1) || t.file in now.entryFiles - before.entryFiles - {f})
    {
      assert t in tags + more <==> t in tags || t in more;
      assert t.file == f && t.index == i ==> t == Tag(f, i);
    }
  }

  lemma CollectingEnds(fs: FileSystem, f: FileId, before: Snapshot, now: Snapshot, tags: seq<Tag>)
    requires f in fs && Collecting(fs, f, |fs[f]|, before, now, tags)
    ensures Collected(fs, f, before, now, tags)
  {
    assert fs[f][..|fs[f]|] == fs[f];
    ReachableSelf(EntryGraph(fs), f);
    assert Gathered(fs, f, now, f);
  }

  lemma StoppedInInclude(fs: FileSystem, f: FileId, i: nat, seenBefore: set<Entry>, seenMid: set<Entry>, seenNow: set<Entry>)
    requires f in fs && i < |fs[f]| && fs[f][i].Include?
    requires LinesFrom(fs, f, seenBefore, seenMid) && Stopped(fs, fs[f][i].target, seenMid, seenNow)
    ensures Stopped(fs, f, seenBefore, seenNow)
  {
    var target := fs[f][i].target;
    IncludedFile(fs, f, i);
    forall g | ConstraintFile(fs, target, g) ensures ConstraintFile(fs, f, g) {
      ConstraintFileThroughInclude(fs, f, target, g);
    }
    forall g | EntryFile(fs, target, g) ensures EntryFile(fs, f, g) {
      ReachableTransitive(EntryGraph(fs), f, target, g);
    }
    forall e | e in seenNow - seenBefore
      ensures exists g :: g in fs && ConstraintFile(fs, f, g) && e in PackageLines(fs[g])
    {
      if e in seenMid { assert e in seenMid - seenBefore; } else { assert e in seenNow - seenMid; }
    }
  }

  lemma StoppedInConstraint(fs: FileSystem, f: FileId, i: nat, seenBefore: set<Entry>, seenMid: set<Entry>, seenNow: set<Entry>)
    requires f in fs && i < |fs[f]| && fs[f][i].Constrain?
    requires LinesFrom(fs, f, seenBefore, seenMid) && Failed(fs, fs[f][i].target, seenMid, seenNow)
    ensures Stopped(fs, f, seenBefore, seenNow)
  {
    forall g | Reachable(ConstraintGraph(fs), fs[f][i].target, g) ensures ConstraintFile(fs, f, g) {
      ConstrainedFile(fs, f, i, g);
    }
    forall e | e in seenNow - seenBefore
      ensures exists g :: g in fs && ConstraintFile(fs, f, g) && e in PackageLines(fs[g])
    {
      if e in seenMid { assert e in seenMid - seenBefore; } else { assert e in seenNow - seenMid; }
    }
  }
}
