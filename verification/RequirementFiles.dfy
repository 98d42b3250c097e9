/**
 Requirements files: the files one includes with `-r`, and the constraint files it names with `-c`.
 Files may include each other in cycles.  Files are a finite map
 from canonical path to logical lines; a path without an entry cannot be read.
 */
module RequirementFiles {
  import opened Wrappers
  import opened Graph
  import opened Constraints

  type FileId = string

  /** A logical line after parsing.  `Editable` is a `-e` line whose project name is known. */
  datatype Line =
    | Include(target: FileId)
    | Constrain(target: FileId)
    | Editable(name: string)
    | Package(entry: Entry)
    | Ignored

  type FileSystem = map<FileId, seq<Line>>

  /** Where a collected entry came from. */
  datatype Tag = Tag(file: FileId, index: nat)

  // ------------------------------------------------------------- the two graphs

  function IncludeTargets(lines: seq<Line>): set<FileId> {
    set l | l in lines && l.Include? :: l.target
  }

  function ConstrainTargets(lines: seq<Line>): set<FileId> {
    set l | l in lines && l.Constrain? :: l.target
  }

  function PackageLines(lines: seq<Line>): set<Entry> {
    set l | l in lines && l.Package? :: l.entry
  }

  /** `-r` edges, followed when entries are collected. */
  function EntryGraph(fs: FileSystem): Edges<FileId> {
    map f | f in fs :: IncludeTargets(fs[f])
  }

  /** `-r` and `-c` edges, followed alike when constraints are collected. */
  function ConstraintGraph(fs: FileSystem): Edges<FileId> {
    map f | f in fs :: IncludeTargets(fs[f]) + ConstrainTargets(fs[f])
  }

  ghost predicate EntryFile(fs: FileSystem, root: FileId, f: FileId) {
    Reachable(EntryGraph(fs), root, f)
  }

  ghost predicate NamedBy(fs: FileSystem, root: FileId, h: FileId, t: FileId) {
    EntryFile(fs, root, h) && h in fs && t in ConstrainTargets(fs[h])
  }

  /** Reachable by `-r`/`-c` from some `-c` target of an entry file. */
  ghost predicate ConstraintFile(fs: FileSystem, root: FileId, f: FileId) {
    exists h, t :: NamedBy(fs, root, h, t) && Reachable(ConstraintGraph(fs), t, f)
  }

  ghost function LinesOfFiles(fs: FileSystem, files: set<FileId>): set<Entry> {
    set f, l | f in files && f in fs && l in fs[f] && l.Package? :: l.entry
  }

  /** Every constraint line that counts for a run started at `root`. */
  ghost function ConstraintLines(fs: FileSystem, root: FileId): set<Entry> {
    LinesOfFiles(fs, set f | f in fs && ConstraintFile(fs, root, f))
  }

  predicate IsEntryLine(l: Line) {
    l.Editable? || l.Package?
  }

  function EntryOf(l: Line): Entry
    requires IsEntryLine(l)
  {
    if l.Package? then l.entry else Entry(l.name, None, None, None, false)
  }

  predicate TagOk(fs: FileSystem, t: Tag) {
    t.file in fs && t.index < |fs[t.file]| && IsEntryLine(fs[t.file][t.index])
  }

  function TagEntry(fs: FileSystem, t: Tag): Entry
    requires TagOk(fs, t)
  {
    EntryOf(fs[t.file][t.index])
  }

  /** Lines of one file keep their order; in particular no line is collected twice. */
  ghost predicate InFileOrder(tags: seq<Tag>) {
    forall i, j :: 0 <= i < j < |tags| && tags[i].file == tags[j].file ==> tags[i].index < tags[j].index
  }

  /** The entries are the tagged lines, one by one. */
  ghost predicate Labels(fs: FileSystem, tags: seq<Tag>, entries: seq<Entry>) {
    && |tags| == |entries|
    && forall k :: 0 <= k < |tags| ==> TagOk(fs, tags[k]) && entries[k] == TagEntry(fs, tags[k])
  }

  // -------------------------------------------------------------- small lemmas

  lemma LinesOfUnion(fs: FileSystem, a: set<FileId>, b: set<FileId>)
    ensures LinesOfFiles(fs, a + b) == LinesOfFiles(fs, a) + LinesOfFiles(fs, b)
  {
    forall e | e in LinesOfFiles(fs, a) + LinesOfFiles(fs, b) ensures e in LinesOfFiles(fs, a + b) {
      var f, l :| (f in a || f in b) && f in fs && l in fs[f] && l.Package? && l.entry == e;
      assert f in a + b;
    }
  }

  lemma LinesOfOne(fs: FileSystem, f: FileId)
    requires f in fs
    ensures LinesOfFiles(fs, {f}) == PackageLines(fs[f])
  {
    forall e | e in PackageLines(fs[f]) ensures e in LinesOfFiles(fs, {f}) {
      var l :| l in fs[f] && l.Package? && l.entry == e;
      assert f in {f};
    }
  }

  /** What one more line adds to the sets read off a prefix of a file. */
  lemma PrefixStep(lines: seq<Line>, i: nat)
    requires i < |lines|
    ensures PackageLines(lines[..i + 1]) == PackageLines(lines[..i]) + if lines[i].Package? then {lines[i].entry} else {}
    ensures IncludeTargets(lines[..i + 1]) == IncludeTargets(lines[..i]) + if lines[i].Include? then {lines[i].target} else {}
    ensures ConstrainTargets(lines[..i + 1]) == ConstrainTargets(lines[..i]) + if lines[i].Constrain? then {lines[i].target} else {}
  {
    assert lines[..i + 1] == lines[..i] + [lines[i]];
    assert forall l :: l in lines[..i + 1] <==> l in lines[..i] || l == lines[i];
  }

  lemma ConstraintFileThroughInclude(fs: FileSystem, root: FileId, f: FileId, g: FileId)
    requires EntryFile(fs, root, f) && ConstraintFile(fs, f, g)
    ensures ConstraintFile(fs, root, g)
  {
    var h, t :| NamedBy(fs, f, h, t) && Reachable(ConstraintGraph(fs), t, g);
    ReachableTransitive(EntryGraph(fs), root, f, h);
    assert NamedBy(fs, root, h, t);
  }

  // ---------------------------------------------------------------- counting

  lemma CountShrinks(all: set<FileId>, before: set<FileId>, now: set<FileId>, f: FileId)
    requires before <= now && f in all && f !in before && f in now
    ensures |all - now| < |all - before|
  {
    assert f in all - before;
    CountSubset(all - now, (all - before) - {f});
  }

  lemma {:induction false} CountSubset<T>(a: set<T>, b: set<T>)
    requires a <= b
    ensures |a| <= |b|
  {
    if a != {} {
      var x :| x in a;
      CountSubset(a - {x}, b - {x});
    }
  }
}
