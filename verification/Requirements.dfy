/**
 The walk over a `requirements.txt` file, the files it includes and the constraint files they name,
 and loading the entries with their constraints applied.
 */
module Requirements {
  import opened Wrappers
  import opened Graph
  import opened Constraints
  import opened RequirementFiles
  import opened ConstraintWalk
  import opened EntryWalk
  import opened EntryOrder

  // ------------------------------------------------------------------ the walk

  /** Merges one optional field of a constraint into the recorded one. */
  method MergeValue<T(==)>(current: Option<T>, next: Option<T>) returns (ok: bool, merged: Option<T>)
    ensures ok <==> Agree(current, next)
    ensures ok ==> merged == Join(current, next)
    ensures !ok ==> merged == current
  {
    ok, merged := true, current;
    if next.Some? {
      if current.Some? && current != next {
        ok := false;
      } else if current.None? {
        merged := next;
      }
    }
  }

  /** The first `i` lines of `f` have been read: what was visited, and the entries in order. */
  ghost predicate Progress(fs: FileSystem, f: FileId, i: nat, start: Snapshot, now: Snapshot, tags: seq<Tag>, entries: seq<Entry>) {
    && Collecting(fs, f, i, start, now, tags)
    && Expanding(fs, f, i, start.entryFiles, tags, now.entryFiles)
    && Labels(fs, tags, entries)
  }

  lemma ProgressStart(fs: FileSystem, f: FileId, start: Snapshot, now: Snapshot)
    requires f in fs && f !in start.entryFiles && now == start.(entryFiles := start.entryFiles + {f})
    ensures Progress(fs, f, 0, start, now, [], [])
  {
    CollectingStart(fs, f, start, now);
    ExpandingStart(fs, f, start.entryFiles);
  }

  lemma ProgressIncludes(fs: FileSystem, f: FileId, i: nat, start: Snapshot, mid: Snapshot, now: Snapshot,
                         tags: seq<Tag>, entries: seq<Entry>, more: seq<Tag>, nested: seq<Entry>)
    requires Progress(fs, f, i, start, mid, tags, entries) && i < |fs[f]| && fs[f][i].Include?
    requires Collected(fs, fs[f][i].target, mid, now, more) && Labels(fs, more, nested)
    requires ExpandFile(fs, fs[f][i].target, mid.entryFiles) == (more, now.entryFiles)
    ensures Progress(fs, f, i + 1, start, now, tags + more, entries + nested)
  {
    CollectingFollows(fs, f, i, start, mid, now, tags, more);
    ExpandingFollows(fs, f, i, start.entryFiles, tags, mid.entryFiles, more, now.entryFiles);
    LabelsAppend(fs, tags, entries, more, nested);
  }

  lemma ProgressConstrains(fs: FileSystem, f: FileId, i: nat, start: Snapshot, mid: Snapshot, now: Snapshot,
                           tags: seq<Tag>, entries: seq<Entry>)
    requires Progress(fs, f, i, start, mid, tags, entries) && Settled(fs, mid)
    requires i < |fs[f]| && fs[f][i].Constrain? && now.entryFiles == mid.entryFiles
    requires Walked(fs, fs[f][i].target, mid.constraintFiles, now.constraintFiles, mid.seen, now.seen)
    ensures Progress(fs, f, i + 1, start, now, tags, entries) && Settled(fs, now)
  {
    CollectingConstrains(fs, f, i, start, mid, now, tags);
    ExpandingReads(fs, f, i, start.entryFiles, tags, mid.entryFiles);
    assert tags + [] == tags;
  }

  lemma ProgressReads(fs: FileSystem, f: FileId, i: nat, start: Snapshot, now: Snapshot, tags: seq<Tag>, entries: seq<Entry>)
    requires Progress(fs, f, i, start, now, tags, entries)
    requires i < |fs[f]| && !fs[f][i].Include? && !fs[f][i].Constrain?
    ensures IsEntryLine(fs[f][i]) ==>
              Progress(fs, f, i + 1, start, now, tags + [Tag(f, i)], entries + [EntryOf(fs[f][i])])
    ensures !IsEntryLine(fs[f][i]) ==> Progress(fs, f, i + 1, start, now, tags, entries)
  {
    CollectingReads(fs, f, i, start, now, tags);
    ExpandingReads(fs, f, i, start.entryFiles, tags, now.entryFiles);
    assert tags + [] == tags;
    if IsEntryLine(fs[f][i]) { LabelsAppend(fs, tags, entries, [Tag(f, i)], [EntryOf(fs[f][i])]); }
  }

  lemma ProgressEnds(fs: FileSystem, f: FileId, start: Snapshot, now: Snapshot, tags: seq<Tag>, entries: seq<Entry>)
    requires f in fs && Progress(fs, f, |fs[f]|, start, now, tags, entries)
    ensures Collected(fs, f, start, now, tags) && Labels(fs, tags, entries)
    ensures ExpandFile(fs, f, start.entryFiles) == (tags, now.entryFiles)
  {
    CollectingEnds(fs, f, start, now, tags);
    ExpandingEnds(fs, f, start.entryFiles, tags, now.entryFiles);
  }

  /** The state shared by the recursive walk: two visited sets and the constraint map. */
  class Walker {
    const fs: FileSystem
    var entryVisited: set<FileId>
    var constraintVisited: set<FileId>
    var constraints: ConstraintMap
    /** The constraint lines inserted so far. */
    ghost var seen: set<Entry>

    constructor (fs: FileSystem)
      ensures this.fs == fs && entryVisited == {} && constraintVisited == {} && constraints == map[] && seen == {}
    {
      this.fs := fs;
      entryVisited, constraintVisited, constraints, seen := {}, {}, map[], {};
    }

    ghost predicate Joined()
      reads this
    {
      Consistent(seen) && IsJoinMap(seen, constraints)
    }

    ghost function Now(): Snapshot
      reads this
    {
      Snapshot(entryVisited, constraintVisited, seen)
    }

    method InsertConstraint(c: Entry) returns (ok: bool)
      modifies this`constraints
      ensures ok <==> Insert(old(constraints), c).Some?
      ensures ok ==> constraints == Insert(old(constraints), c).value
      ensures !ok ==> constraints.Keys == old(constraints).Keys
    {
      if !c.eligible { return false; }
      if c.name in constraints {
        var version, hash, integrity;
        ok, version := MergeValue(constraints[c.name].version, c.version);
        constraints := constraints[c.name := constraints[c.name].(version := version)];
        if !ok { return; }
        ok, hash := MergeValue(constraints[c.name].hash, c.hash);
        constraints := constraints[c.name := constraints[c.name].(hash := hash)];
        if !ok { return; }
        ok, integrity := MergeValue(constraints[c.name].integrity, c.integrity);
        constraints := constraints[c.name := constraints[c.name].(integrity := integrity)];
        return;
      }
      constraints := constraints[c.name := c];
      ok := true;
    }

    /** Reads a constraint file and everything it names, once each. */
    method CollectConstraints(f: FileId) returns (ok: bool)
      requires Joined()
      modifies this`constraintVisited, this`constraints, this`seen
      ensures ok ==> Joined() && Walked(fs, f, old(constraintVisited), constraintVisited, old(seen), seen)
      ensures !ok ==> Failed(fs, f, old(seen), seen)
      decreases |fs.Keys - constraintVisited|
    {
      if f in constraintVisited {
        assert constraintVisited - old(constraintVisited) == {};
        return true;
      }
      constraintVisited := constraintVisited + {f};
      if f !in fs {
        ReachableSelf(ConstraintGraph(fs), f);
        return false;
      }
      assert f !in old(constraintVisited);
      PartwayStart(fs, f, old(constraintVisited), seen);
      for i := 0 to |fs[f]|
        invariant Joined()
        invariant Partway(fs, f, i, old(constraintVisited), constraintVisited, old(seen), seen)
      {
        var line := fs[f][i];
        ghost var mid, midSeen, midMap := constraintVisited, seen, constraints;
        if line.Include? || line.Constrain? {
          CountShrinks(fs.Keys, old(constraintVisited), constraintVisited, f);
          ok := CollectConstraints(line.target);
          if !ok {
            PartwayFails(fs, f, i, old(constraintVisited), mid, old(seen), midSeen, seen);
            return;
          }
          PartwayFollows(fs, f, i, old(constraintVisited), mid, constraintVisited, old(seen), midSeen, seen);
        } else if line.Package? {
          ok := InsertConstraint(line.entry);
          seen := seen + {line.entry};
          InsertRefusal(midSeen, midMap, line.entry);
          if !ok {
            PartwayRefuses(fs, f, i, old(constraintVisited), mid, old(seen), midSeen);
            return;
          }
          InsertExtends(midSeen, midMap, line.entry);
          PartwayReads(fs, f, i, old(constraintVisited), mid, old(seen), midSeen);
        } else {
          PartwayReads(fs, f, i, old(constraintVisited), mid, old(seen), midSeen);
        }
      }
      PartwayEnds(fs, f, old(constraintVisited), constraintVisited, old(seen), seen);
      ok := true;
    }

    /** Collects the entries of a file and of the files it includes, reading constraint files on the way. */
    method CollectEntries(f: FileId) returns (ok: bool, entries: seq<Entry>, ghost tags: seq<Tag>)
      requires Joined() && Settled(fs, Now())
      modifies this
      ensures ok ==> Joined() && Settled(fs, Now())
      ensures ok ==> Collected(fs, f, old(Now()), Now(), tags) && Labels(fs, tags, entries)
      ensures ok ==> ExpandFile(fs, f, old(entryVisited)) == (tags, entryVisited)
      ensures !ok ==> Stopped(fs, f, old(seen), seen)
      decreases |fs.Keys - entryVisited|
    {
      ok, entries, tags := true, [], [];
      ghost var start := Now();
      if f in entryVisited {
        CollectedNothing(fs, f, start);
        return;
      }
      entryVisited := entryVisited + {f};
      if f !in fs {
        ReachableSelf(EntryGraph(fs), f);
        assert EntryFile(fs, f, f);
        ok := false;
        return;
      }
      ProgressStart(fs, f, start, Now());
      for i := 0 to |fs[f]|
        invariant Joined() && Settled(fs, Now())
        invariant Progress(fs, f, i, start, Now(), tags, entries)
      {
        var line := fs[f][i];
        ghost var mid := Now();
        CollectingSeen(fs, f, start, mid);
        if line.Include? {
          CountShrinks(fs.Keys, old(entryVisited), entryVisited, f);
          var nested;
          ghost var more;
          ok, nested, more := CollectEntries(line.target);
          if !ok {
            StoppedInInclude(fs, f, i, old(seen), mid.seen, seen);
            return;
          }
          ProgressIncludes(fs, f, i, start, mid, Now(), tags, entries, more, nested);
          entries, tags := entries + nested, tags + more;
        } else if line.Constrain? {
          ok := CollectConstraints(line.target);
          if !ok {
            StoppedInConstraint(fs, f, i, old(seen), mid.seen, seen);
            return;
          }
          ProgressConstrains(fs, f, i, start, mid, Now(), tags, entries);
        } else {
          ProgressReads(fs, f, i, start, mid, tags, entries);
          if line.Editable? {
            entries, tags := entries + [Entry(line.name, None, None, None, false)], tags + [Tag(f, i)];
          } else if line.Package? {
            entries, tags := entries + [line.entry], tags + [Tag(f, i)];
          }
        }
      }
      ProgressEnds(fs, f, start, Now(), tags, entries);
      ok := true;
    }
  }

  // --------------------------------------------------------------- the whole load

  ghost predicate EntryLineOf(fs: FileSystem, root: FileId, t: Tag) {
    TagOk(fs, t) && EntryFile(fs, root, t.file)
  }

  /** Every needed file can be read, constraint lines agree with each other and with the entries they bind. */
  ghost predicate Loadable(fs: FileSystem, root: FileId) {
    && (forall g :: EntryFile(fs, root, g) || ConstraintFile(fs, root, g) ==> g in fs)
    && Consistent(ConstraintLines(fs, root))
    && (forall f, e, a ::
          (&& EntryFile(fs, root, f) && f in fs && Package(e) in fs[f] && e.eligible
           && a in ConstraintLines(fs, root) && a.name == e.name)
          ==> Compatible(a, e))
  }

  const START := Snapshot({}, {}, {})

  lemma WalkedEntryFiles(fs: FileSystem, root: FileId, now: Snapshot, tags: seq<Tag>)
    requires Collected(fs, root, START, now, tags)
    ensures forall g :: g in now.entryFiles ==> Gathered(fs, root, now, g)
    ensures forall g :: g in now.entryFiles <==> EntryFile(fs, root, g)
  {
    assert now.entryFiles - START.entryFiles == now.entryFiles;
    assert Closed(EntryGraph(fs), now.entryFiles) by {
      forall g | g in now.entryFiles ensures Gathered(fs, root, now, g) {}
    }
    forall g | EntryFile(fs, root, g) ensures g in now.entryFiles {
      ClosedHoldsReachable(EntryGraph(fs), now.entryFiles, root, g);
    }
  }

  /** A finished walk from scratch visited exactly the entry files and read exactly the constraint lines. */
  lemma CompleteWalk(fs: FileSystem, root: FileId, now: Snapshot, tags: seq<Tag>)
    requires Settled(fs, now) && Collected(fs, root, START, now, tags)
    ensures forall g :: g in now.entryFiles <==> EntryFile(fs, root, g)
    ensures forall g :: g in now.constraintFiles <==> ConstraintFile(fs, root, g)
    ensures now.entryFiles <= fs.Keys && now.constraintFiles <= fs.Keys
    ensures now.seen == ConstraintLines(fs, root)
  {
    WalkedEntryFiles(fs, root, now, tags);
    forall g | g in now.entryFiles ensures g in fs { assert Gathered(fs, root, now, g); }
    forall g | ConstraintFile(fs, root, g) ensures g in now.constraintFiles {
      var h, t :| NamedBy(fs, root, h, t) && Reachable(ConstraintGraph(fs), t, g);
      assert Gathered(fs, root, now, h);
      ClosedHoldsReachable(ConstraintGraph(fs), now.constraintFiles, t, g);
    }
    assert now.constraintFiles - START.constraintFiles == now.constraintFiles;
    assert now.constraintFiles == set f | f in fs && ConstraintFile(fs, root, f);
  }

  lemma StoppedIsUnloadable(fs: FileSystem, root: FileId, seen: set<Entry>)
    requires Stopped(fs, root, {}, seen)
    ensures !Loadable(fs, root)
  {
    forall e | e in seen ensures e in ConstraintLines(fs, root) {
      assert e in seen - {};
      var g :| g in fs && ConstraintFile(fs, root, g) && e in PackageLines(fs[g]);
      var l :| l in fs[g] && l.Package? && l.entry == e;
      assert g in set f | f in fs && ConstraintFile(fs, root, f);
    }
  }

  method ApplyAll(entries: seq<Entry>, constraints: ConstraintMap) returns (r: Result<seq<Entry>>)
    ensures r.Ok? <==> forall k :: 0 <= k < |entries| ==> Applied(entries[k], constraints).Ok?
    ensures r.Ok? ==> |r.value| == |entries|
    ensures r.Ok? ==> forall k :: 0 <= k < |entries| ==> Applied(entries[k], constraints) == Ok(r.value[k])
  {
    var applied := [];
    for k := 0 to |entries|
      invariant |applied| == k
      invariant forall j :: 0 <= j < k ==> Applied(entries[j], constraints) == Ok(applied[j])
    {
      var e := ApplyConstraints(entries[k], constraints);
      if e.Err? { return Err; }
      applied := applied + [e.value];
    }
    return Ok(applied);
  }

  /** After a complete walk, the last step succeeds exactly when the input is loadable. */
  lemma AppliedAfterWalk(fs: FileSystem, root: FileId, entries: seq<Entry>, tags: seq<Tag>, m: ConstraintMap)
    requires Labels(fs, tags, entries) && IsJoinMap(ConstraintLines(fs, root), m)
    requires Consistent(ConstraintLines(fs, root))
    requires forall g :: EntryFile(fs, root, g) || ConstraintFile(fs, root, g) ==> g in fs
    requires forall t :: t in tags <==> EntryLineOf(fs, root, t)
    ensures (forall k :: 0 <= k < |entries| ==> Applied(entries[k], m).Ok?) <==> Loadable(fs, root)
  {
    var lines := ConstraintLines(fs, root);
    if forall k :: 0 <= k < |entries| ==> Applied(entries[k], m).Ok? {
      forall f, e, a | EntryFile(fs, root, f) && f in fs && Package(e) in fs[f] && e.eligible && a in lines && a.name == e.name
        ensures Compatible(a, e)
      {
        var i :| 0 <= i < |fs[f]| && fs[f][i] == Package(e);
        assert Tag(f, i) in tags;
        var k :| 0 <= k < |tags| && tags[k] == Tag(f, i);
        AppliedIsJoin(lines, m, entries[k]);
      }
    } else {
      var k :| 0 <= k < |entries| && Applied(entries[k], m).Err?;
      AppliedIsJoin(lines, m, entries[k]);
      assert tags[k] in tags;
      assert Package(entries[k]) in fs[tags[k].file];
    }
  }

  /**
   Loads a requirements file: succeeds exactly on loadable inputs, and then lists every entry line of
   every reachable file once, in order of inclusion, each tightened by the constraint lines of its name.
   */
  method LoadRequirements(fs: FileSystem, root: FileId) returns (r: Result<seq<Entry>>, ghost tags: seq<Tag>)
    ensures r.Ok? <==> Loadable(fs, root)
    ensures r.Ok? ==> InFileOrder(tags) && tags == ExpandFile(fs, root, {}).0 && |r.value| == |tags|
    ensures r.Ok? ==> InPlace(fs, root, tags)
    ensures r.Ok? ==> forall t :: t in tags <==>
              && t.file in fs && EntryFile(fs, root, t.file) && t.index < |fs[t.file]|
              && (fs[t.file][t.index].Package? || fs[t.file][t.index].Editable?)
    ensures r.Ok? ==> forall k, e :: 0 <= k < |tags| && fs[tags[k].file][tags[k].index] == Package(e) ==>
              Tightened(ConstraintLines(fs, root), e, r.value[k])
    ensures r.Ok? ==> forall k, n :: 0 <= k < |tags| && fs[tags[k].file][tags[k].index] == Editable(n) ==>
              r.value[k] == Entry(n, None, None, None, false)
  {
    var w := new Walker(fs);
    assert w.Now() == START;
    var ok, entries;
    ok, entries, tags := w.CollectEntries(root);
    if !ok {
      StoppedIsUnloadable(fs, root, w.seen);
      return Err, tags;
    }
    CompleteWalk(fs, root, w.Now(), tags);
    ExpandedInPlace(fs, root);
    AppliedAfterWalk(fs, root, entries, tags, w.constraints);
    r := ApplyAll(entries, w.constraints);
    if r.Ok? {
      forall k | 0 <= k < |tags|
        ensures TagOk(fs, tags[k]) && Tightened(ConstraintLines(fs, root), TagEntry(fs, tags[k]), r.value[k])
      {
        AppliedIsJoin(ConstraintLines(fs, root), w.constraints, entries[k]);
      }
      assert forall k :: 0 <= k < |tags| ==> tags[k] in tags;
    }
  }
}
