/** What a walk over constraint files has done, completely, partway, or when it stopped. */
module ConstraintWalk {
  import opened Graph
  import opened Constraints
  import opened RequirementFiles

  ghost predicate Finished(fs: FileSystem, f: FileId, visited: set<FileId>, g: FileId) {
    && g in fs
    && IncludeTargets(fs[g]) + ConstrainTargets(fs[g]) <= visited
    && Reachable(ConstraintGraph(fs), f, g)
  }

  /** A completed walk from `f`: the newly visited files were reached, read, and left nothing to follow. */
  ghost predicate Walked(fs: FileSystem, f: FileId, before: set<FileId>, after: set<FileId>,
                         seenBefore: set<Entry>, seenAfter: set<Entry>) {
    && f in after && before <= after
    && (forall g :: g in after - before ==> Finished(fs, f, after, g))
    && seenAfter == seenBefore + LinesOfFiles(fs, after - before)
  }

  /** All newly seen lines belong to files reachable from `f`. */
  ghost predicate SeenFrom(fs: FileSystem, f: FileId, seenBefore: set<Entry>, seenAfter: set<Entry>) {
    && seenBefore <= seenAfter
    && forall e :: e in seenAfter - seenBefore ==>
                     exists g :: g in fs && Reachable(ConstraintGraph(fs), f, g) && e in PackageLines(fs[g])
  }

  /** A walk from `f` that stopped: a reachable file is missing, or reachable lines contradict each other. */
  ghost predicate Failed(fs: FileSystem, f: FileId, seenBefore: set<Entry>, seenAfter: set<Entry>) {
    && SeenFrom(fs, f, seenBefore, seenAfter)
    && (!Consistent(seenAfter) || exists g :: Reachable(ConstraintGraph(fs), f, g) && g !in fs)
  }

  /** The state of a walk while the first `i` lines of `f` have been handled. */
  ghost predicate Partway(fs: FileSystem, f: FileId, i: nat, before: set<FileId>, now: set<FileId>,
                          seenBefore: set<Entry>, seenNow: set<Entry>) {
    && f in fs && i <= |fs[f]|
    && f in now && f !in before && before <= now
    && (forall g :: g in now - before - {f} ==> Finished(fs, f, now, g))
    && IncludeTargets(fs[f][..i]) + ConstrainTargets(fs[f][..i]) <= now
    && seenNow == seenBefore + PackageLines(fs[f][..i]) + LinesOfFiles(fs, now - before - {f})
  }

  lemma PartwayStart(fs: FileSystem, f: FileId, before: set<FileId>, seen: set<Entry>)
    requires f in fs && f !in before
    ensures Partway(fs, f, 0, before, before + {f}, seen, seen)
  {
    assert before + {f} - before - {f} == {};
  }

  lemma PartwaySeen(fs: FileSystem, f: FileId, i: nat, before: set<FileId>, now: set<FileId>,
                    seenBefore: set<Entry>, seenNow: set<Entry>)
    requires Partway(fs, f, i, before, now, seenBefore, seenNow)
    ensures SeenFrom(fs, f, seenBefore, seenNow)
  {
    ReachableSelf(ConstraintGraph(fs), f);
    forall e | e in seenNow - seenBefore
      ensures exists g :: g in fs && Reachable(ConstraintGraph(fs), f, g) && e in PackageLines(fs[g])
    {
      if e in PackageLines(fs[f][..i]) {
        assert e in PackageLines(fs[f]);
      } else {
        var g, l :| g in now - before - {f} && g in fs && l in fs[g] && l.Package? && l.entry == e;
        assert Finished(fs, f, now, g) && e in PackageLines(fs[g]);
      }
    }
  }

  lemma FollowedTarget(fs: FileSystem, f: FileId, i: nat)
    requires f in fs && i < |fs[f]| && (fs[f][i].Include? || fs[f][i].Constrain?)
    ensures Reachable(ConstraintGraph(fs), f, fs[f][i].target)
  {
    assert fs[f][i] in fs[f];
    assert Edge(ConstraintGraph(fs), f, fs[f][i].target);
    ReachableEdge(ConstraintGraph(fs), f, fs[f][i].target);
  }

  lemma PartwayFollows(fs: FileSystem, f: FileId, i: nat, before: set<FileId>, mid: set<FileId>, now: set<FileId>,
                       seenBefore: set<Entry>, seenMid: set<Entry>, seenNow: set<Entry>)
    requires Partway(fs, f, i, before, mid, seenBefore, seenMid)
    requires i < |fs[f]| && (fs[f][i].Include? || fs[f][i].Constrain?)
    requires Walked(fs, fs[f][i].target, mid, now, seenMid, seenNow)
    ensures Partway(fs, f, i + 1, before, now, seenBefore, seenNow)
  {
    PrefixStep(fs[f], i);
    FollowedTarget(fs, f, i);
    forall g | g in now - before - {f} ensures Finished(fs, f, now, g) {
      if g in mid {
        assert Finished(fs, f, mid, g);
      } else {
        assert Finished(fs, fs[f][i].target, now, g);
        ReachableTransitive(ConstraintGraph(fs), f, fs[f][i].target, g);
      }
    }
    LinesOfUnion(fs, mid - before - {f}, now - mid);
    assert mid - before - {f} + (now - mid) == now - before - {f};
  }

  lemma PartwayFails(fs: FileSystem, f: FileId, i: nat, before: set<FileId>, mid: set<FileId>,
                     seenBefore: set<Entry>, seenMid: set<Entry>, seenNow: set<Entry>)
    requires Partway(fs, f, i, before, mid, seenBefore, seenMid)
    requires i < |fs[f]| && (fs[f][i].Include? || fs[f][i].Constrain?)
    requires Failed(fs, fs[f][i].target, seenMid, seenNow)
    ensures Failed(fs, f, seenBefore, seenNow)
  {
    FollowedTarget(fs, f, i);
    PartwaySeen(fs, f, i, before, mid, seenBefore, seenMid);
    var target := fs[f][i].target;
    forall g | Reachable(ConstraintGraph(fs), target, g) ensures Reachable(ConstraintGraph(fs), f, g) {
      ReachableTransitive(ConstraintGraph(fs), f, target, g);
    }
    forall e | e in seenNow - seenBefore
      ensures exists g :: g in fs && Reachable(ConstraintGraph(fs), f, g) && e in PackageLines(fs[g])
    {
      if e in seenMid { assert e in seenMid - seenBefore; } else { assert e in seenNow - seenMid; }
    }
  }

  /** A line that is not followed only adds its own package, if it is one. */
  lemma PartwayReads(fs: FileSystem, f: FileId, i: nat, before: set<FileId>, now: set<FileId>,
                     seenBefore: set<Entry>, seenNow: set<Entry>)
    requires Partway(fs, f, i, before, now, seenBefore, seenNow)
    requires i < |fs[f]| && !fs[f][i].Include? && !fs[f][i].Constrain?
    ensures Partway(fs, f, i + 1, before, now, seenBefore,
                    seenNow + if fs[f][i].Package? then {fs[f][i].entry} else {})
  {
    PrefixStep(fs[f], i);
  }

  lemma PartwayRefuses(fs: FileSystem, f: FileId, i: nat, before: set<FileId>, now: set<FileId>,
                       seenBefore: set<Entry>, seenNow: set<Entry>)
    requires Partway(fs, f, i, before, now, seenBefore, seenNow)
    requires i < |fs[f]| && fs[f][i].Package? && !Consistent(seenNow + {fs[f][i].entry})
    ensures Failed(fs, f, seenBefore, seenNow + {fs[f][i].entry})
  {
    PartwayReads(fs, f, i, before, now, seenBefore, seenNow);
    PartwaySeen(fs, f, i + 1, before, now, seenBefore, seenNow + {fs[f][i].entry});
  }

  lemma PartwayEnds(fs: FileSystem, f: FileId, before: set<FileId>, now: set<FileId>,
                    seenBefore: set<Entry>, seenNow: set<Entry>)
    requires f in fs && Partway(fs, f, |fs[f]|, before, now, seenBefore, seenNow)
    ensures Walked(fs, f, before, now, seenBefore, seenNow)
  {
    assert fs[f][..|fs[f]|] == fs[f];
    ReachableSelf(ConstraintGraph(fs), f);
    LinesOfUnion(fs, {f}, now - before - {f});
    LinesOfOne(fs, f);
    assert {f} + (now - before - {f}) == now - before;
  }
}
