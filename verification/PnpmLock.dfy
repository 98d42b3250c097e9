/**
 The line-by-line reader of `pnpm-lock.yaml`.  It is specified block by block: a package key line
 and the indented lines up to the next boundary form a block, and each block is read alone.
 */
module PnpmLock {
  import opened Wrappers
  import opened Text
  import opened Coordinates
  import opened Findings

  // ---------------------------------------------------------------- single lines

  /** A line without leading space: a top-level section header, or an empty line. */
  predicate IsSection(line: string) {
    !(" " <= line)
  }

  /** A package key, indented by exactly two spaces. */
  predicate IsKey(line: string) {
    "  " <= line && var rest := line[2..]; !(" " <= rest) && rest != "" && rest[|rest| - 1] == ':'
  }

  function KeyOf(line: string): string
    requires IsKey(line)
  {
    TrimMatches(TrimEndMatches(line[2..], Is(':')), c => c == '\'' || c == '"')
  }

  const INLINE := "    resolution: {"
  const VALUE := "      integrity: "
  const DEEP := "      "

  function Scalar(value: string): string {
    TrimMatches(TrimMatches(TrimEndMatches(Trim(value), Is(',')), Is('\'')), Is('"'))
  }

  function FirstIntegrity(entries: seq<string>): Option<string> {
    if entries == [] then None
    else match StripPrefix(Trim(entries[0]), "integrity: ")
      case Some(value) => Some(Scalar(value))
      case None => FirstIntegrity(entries[1..])
  }

  function InlineIntegrity(value: string): Option<string> {
    FirstIntegrity(Split(TrimEndMatches(value, Is('}')), ','))
  }

  /** Splits `name@version` or `@scope/name@version`. */
  function SplitBase(base: string): (string, string) {
    if "@" <= base then
      match Find(base, '/')
      case Some(slash) =>
        (match FindLast(base[slash + 1..], '@')
         case Some(at) => (base[..slash + 1 + at], base[slash + 1 + at + 1..])
         case None => (base, ""))
      case None => (base, "")
    else
      match FindLast(base, '@')
      case Some(at) => (base[..at], base[at + 1..])
      case None => (base, "")
  }

  /** Outer slashes and a peer suffix in parentheses are ignored. */
  function SplitKey(key: string): (string, string) {
    SplitBase(Before(TrimMatches(key, Is('/')), '('))
  }

  function PackageFinding(key: string, integrity: Option<string>): seq<Finding> {
    var (name, version) := SplitKey(key);
    if name != "" && version != "" then [NewFinding(Npm, name, Some(version), integrity)] else []
  }

  // ------------------------------------------------------- the block-wise meaning

  /** After these lines of one block, is a `resolution:` mapping open? */
  predicate ResolutionOpen(body: seq<string>) {
    if body == [] then false
    else
      var line := body[|body| - 1];
      if INLINE <= line then false
      else if Trim(line) == "resolution:" then true
      else ResolutionOpen(body[..|body| - 1]) && DEEP <= line
  }

  /** The integrity one block gives to its package: the last resolution value written in it. */
  function BlockIntegrity(body: seq<string>): Option<string> {
    if body == [] then None
    else
      var line, front := body[|body| - 1], body[..|body| - 1];
      if INLINE <= line then InlineIntegrity(line[|INLINE|..])
      else if Trim(line) != "resolution:" && ResolutionOpen(front) && VALUE <= line then Some(Scalar(line[|VALUE|..]))
      else BlockIntegrity(front)
  }

  /** A package key and the lines that belong to it. */
  datatype Block = Block(key: string, body: seq<string>)

  function BlockFinding(b: Block): seq<Finding> {
    PackageFinding(b.key, BlockIntegrity(b.body))
  }

  function FindingsOf(blocks: seq<Block>): seq<Finding> {
    if blocks == [] then [] else BlockFinding(blocks[0]) + FindingsOf(blocks[1..])
  }

  /** The role a line plays for cutting a file into blocks. */
  datatype Line = Section(text: string) | Key(key: string) | Other(text: string)

  function Classify(line: string): Line {
    if IsSection(line) then Section(line) else if IsKey(line) then Key(KeyOf(line)) else Other(line)
  }

  function Classified(lines: seq<string>): seq<Line> {
    seq(|lines|, i requires 0 <= i < |lines| => Classify(lines[i]))
  }

  lemma ClassifiedAppend(a: seq<string>, b: seq<string>)
    ensures Classified(a + b) == Classified(a) + Classified(b)
  {
  }

  function Others(body: seq<string>): seq<Line> {
    seq(|body|, i requires 0 <= i < |body| => Other(body[i]))
  }

  predicate PackagesAfter(inPackages: bool, l: Line) {
    if !l.Section? || l.text == "" then inPackages else l.text == "packages:"
  }

  /** The lines up to the next section or key. */
  function BodyOf(lines: seq<Line>): seq<string> {
    if lines == [] || !lines[0].Other? then [] else [lines[0].text] + BodyOf(lines[1..])
  }

  function AfterBody(lines: seq<Line>): (rest: seq<Line>)
    ensures |rest| <= |lines|
  {
    if lines == [] || !lines[0].Other? then lines else AfterBody(lines[1..])
  }

  /** Cuts the `packages:` sections into blocks. */
  function Cut(inPackages: bool, lines: seq<Line>): seq<Block>
    decreases |lines|
  {
    if lines == [] then []
    else if inPackages && lines[0].Key? then
      [Block(lines[0].key, BodyOf(lines[1..]))] + Cut(inPackages, AfterBody(lines[1..]))
    else Cut(PackagesAfter(inPackages, lines[0]), lines[1..])
  }

  /** The findings of a file: each block read by itself, in order. */
  function BlockWise(lines: seq<string>): seq<Finding> {
    FindingsOf(Cut(false, Classified(lines)))
  }

  // ------------------------------------------------------------------- the reader

  /** The blocks still to come when the reader stands in front of `lines`, inside a block or not. */
  ghost function Pending(open: Option<Block>, inPackages: bool, lines: seq<Line>): seq<Block> {
    match open
    case None => Cut(inPackages, lines)
    case Some(b) => [Block(b.key, b.body + BodyOf(lines))] + Cut(inPackages, AfterBody(lines))
  }

  ghost function Whole(open: Option<Block>): seq<Block> {
    if open.Some? then [open.value] else []
  }

  ghost function Extended(open: Option<Block>, line: string): Option<Block> {
    if open.Some? then Some(open.value.(body := open.value.body + [line])) else None
  }

  /** At a boundary the open block is complete. */
  lemma PendingFlush(open: Option<Block>, inPackages: bool, lines: seq<Line>)
    requires lines == [] || !lines[0].Other?
    ensures Pending(open, inPackages, lines) == Whole(open) + Cut(inPackages, lines)
  {
    assert open.Some? ==> open.value.body + [] == open.value.body;
  }

  lemma SectionStep(open: Option<Block>, inPackages: bool, lines: seq<Line>)
    requires lines != [] && lines[0].Section?
    ensures Pending(open, inPackages, lines)
         == Whole(open) + Pending(None, PackagesAfter(inPackages, lines[0]), lines[1..])
  {
    PendingFlush(open, inPackages, lines);
  }

  lemma KeyStep(open: Option<Block>, lines: seq<Line>)
    requires lines != [] && lines[0].Key?
    ensures Pending(open, true, lines) == Whole(open) + Pending(Some(Block(lines[0].key, [])), true, lines[1..])
  {
    PendingFlush(open, true, lines);
    assert [] + BodyOf(lines[1..]) == BodyOf(lines[1..]);
  }

  lemma SkipStep(lines: seq<Line>)
    requires lines != [] && !lines[0].Section?
    ensures Pending(None, false, lines) == Pending(None, false, lines[1..])
  {
  }

  lemma BodyStep(open: Option<Block>, lines: seq<Line>)
    requires lines != [] && lines[0].Other?
    ensures Pending(open, true, lines) == Pending(Extended(open, lines[0].text), true, lines[1..])
  {
    if open.Some? {
      assert open.value.body + BodyOf(lines) == open.value.body + [lines[0].text] + BodyOf(lines[1..]);
    }
  }

  ghost function Emitted(open: Option<Block>): seq<Finding> {
    if open.Some? then BlockFinding(open.value) else []
  }

  lemma FindingsOfWhole(open: Option<Block>, rest: seq<Block>)
    ensures FindingsOf(Whole(open) + rest) == Emitted(open) + FindingsOf(rest)
  {
    assert open.Some? ==> (Whole(open) + rest)[1..] == rest;
    assert open.None? ==> Whole(open) + rest == rest;
  }

  lemma FlushStep(found: seq<Finding>, open: Option<Block>, all: seq<Block>, rest: seq<Block>)
    requires all == Whole(open) + rest
    ensures found + FindingsOf(all) == (found + Emitted(open)) + FindingsOf(rest)
  {
    FindingsOfWhole(open, rest);
  }

  method FlushPackage(findings: seq<Finding>, key: Option<string>, integrity: Option<string>, ghost open: Option<Block>)
    returns (r: seq<Finding>)
    requires key == (if open.Some? then Some(open.value.key) else None)
    requires open.Some? ==> integrity == BlockIntegrity(open.value.body)
    ensures r == findings + Emitted(open)
  {
    r := findings;
    if key.Some? {
      var (name, version) := SplitKey(key.value);
      if name != "" && version != "" {
        r := r + [NewFinding(Npm, name, Some(version), integrity)];
      }
    }
  }

  /** The reader's variables describe the open block. */
  ghost predicate Tracks(open: Option<Block>, key: Option<string>, integrity: Option<string>, inResolution: bool) {
    match open
    case None => key == None && integrity == None
    case Some(b) => key == Some(b.key) && integrity == BlockIntegrity(b.body) && inResolution == ResolutionOpen(b.body)
  }

  method ReadBodyLine(line: string, integrity: Option<string>, inResolution: bool, ghost body: seq<string>)
    returns (integrity': Option<string>, inResolution': bool)
    requires integrity == BlockIntegrity(body) && inResolution == ResolutionOpen(body)
    ensures integrity' == BlockIntegrity(body + [line]) && inResolution' == ResolutionOpen(body + [line])
  {
    assert (body + [line])[..|body|] == body;
    integrity', inResolution' := integrity, inResolution;
    if INLINE <= line {
      return InlineIntegrity(line[|INLINE|..]), false;
    }
    if Trim(line) == "resolution:" {
      return integrity, true;
    }
    if inResolution {
      if VALUE <= line {
        assert DEEP <= line by { assert VALUE[..6] == DEEP && line[..6] == VALUE[..6]; }
        return Some(Scalar(line[|VALUE|..])), true;
      }
      if !(DEEP <= line) {
        inResolution' := false;
      }
    }
  }

  /** The streaming reader gives, on every sequence of lines, the block-wise findings in order. */
  method ParsePnpmLock(lines: seq<string>) returns (findings: seq<Finding>)
    ensures findings == BlockWise(lines)
  {
    findings := [];
    var inPackages, inResolution := false, false;
    var currentKey: Option<string> := None;
    var currentIntegrity: Option<string> := None;
    ghost var open: Option<Block> := None;
    ghost var roles := Classified(lines);
    for i := 0 to |lines|
      invariant findings + FindingsOf(Pending(open, inPackages, roles[i..])) == FindingsOf(Cut(false, roles))
      invariant open.Some? ==> inPackages
      invariant Tracks(open, currentKey, currentIntegrity, inResolution)
    {
      var line := lines[i];
      ghost var rest := roles[i..];
      assert rest[0] == Classify(line) && rest[1..] == roles[i + 1..];
      if IsSection(line) {
        SectionStep(open, inPackages, rest);
        FlushStep(findings, open, Pending(open, inPackages, rest), Pending(None, PackagesAfter(inPackages, rest[0]), rest[1..]));
        findings := FlushPackage(findings, currentKey, currentIntegrity, open);
        currentKey, currentIntegrity, open := None, None, None;
        if line != "" {
          inPackages := line == "packages:";
        }
        inResolution := false;
      } else if !inPackages {
        SkipStep(rest);
      } else if IsKey(line) {
        KeyStep(open, rest);
        FlushStep(findings, open, Pending(open, true, rest), Pending(Some(Block(KeyOf(line), [])), true, rest[1..]));
        findings := FlushPackage(findings, currentKey, currentIntegrity, open);
        currentKey, currentIntegrity, open := Some(KeyOf(line)), None, Some(Block(KeyOf(line), []));
        inResolution := false;
      } else {
        BodyStep(open, rest);
        if currentKey.Some? {
          currentIntegrity, inResolution := ReadBodyLine(line, currentIntegrity, inResolution, open.value.body);
        }
        open := Extended(open, line);
      }
    }
    assert roles[|lines|..] == [];
    PendingFlush(open, inPackages, []);
    FlushStep(findings, open, Pending(open, inPackages, []), []);
    findings := FlushPackage(findings, currentKey, currentIntegrity, open);
  }

  // --------------------------------------------------------------------- locality

  predicate InPackages(inPackages: bool, lines: seq<Line>)
    decreases |lines|
  {
    if lines == [] then inPackages else InPackages(PackagesAfter(inPackages, lines[0]), lines[1..])
  }

  predicate AtBoundary(lines: seq<Line>) {
    lines == [] || !lines[0].Other?
  }

  lemma {:induction false} BodyAppend(a: seq<Line>, b: seq<Line>)
    requires AtBoundary(b)
    ensures BodyOf(a + b) == BodyOf(a) && AfterBody(a + b) == AfterBody(a) + b
  {
    if a == [] {
      assert a + b == b;
    } else {
      assert (a + b)[1..] == a[1..] + b;
      BodyAppend(a[1..], b);
    }
  }

  lemma {:induction false} InPackagesAfterBody(inPackages: bool, lines: seq<Line>)
    ensures InPackages(inPackages, lines) == InPackages(inPackages, AfterBody(lines))
  {
    if lines != [] && lines[0].Other? { InPackagesAfterBody(inPackages, lines[1..]); }
  }

  /** Cutting a file in two at a boundary cuts its blocks in two. */
  lemma {:induction false} CutAppend(inPackages: bool, a: seq<Line>, b: seq<Line>)
    requires AtBoundary(b)
    ensures Cut(inPackages, a + b) == Cut(inPackages, a) + Cut(InPackages(inPackages, a), b)
    decreases |a|
  {
    if a == [] {
      assert a + b == b;
    } else {
      assert (a + b)[0] == a[0] && (a + b)[1..] == a[1..] + b;
      if inPackages && a[0].Key? {
        BodyAppend(a[1..], b);
        CutAppend(true, AfterBody(a[1..]), b);
        InPackagesAfterBody(true, a[1..]);
      } else {
        CutAppend(PackagesAfter(inPackages, a[0]), a[1..], b);
      }
    }
  }

  lemma {:induction false} FindingsOfAppend(a: seq<Block>, b: seq<Block>)
    ensures FindingsOf(a + b) == FindingsOf(a) + FindingsOf(b)
  {
    if a == [] {
      assert a + b == b;
    } else {
      assert (a + b)[1..] == a[1..] + b;
      FindingsOfAppend(a[1..], b);
    }
  }

  lemma {:induction false} BodyOfOthers(body: seq<string>, after: seq<Line>)
    requires AtBoundary(after)
    ensures var lines := Others(body) + after;
            BodyOf(lines) == body && AfterBody(lines) == after
  {
    var lines := Others(body) + after;
    if body == [] {
      assert lines == after;
    } else {
      BodyOfOthers(body[1..], after);
      assert lines[1..] == Others(body[1..]) + after;
    }
  }

  /** One whole block in front of a boundary. */
  lemma BlockUnfolds(key: string, body: seq<string>, after: seq<Line>)
    requires AtBoundary(after)
    ensures Cut(true, [Key(key)] + (Others(body) + after))
         == [Block(key, body)] + Cut(true, after)
  {
    var rest := Others(body) + after;
    BodyOfOthers(body, after);
    assert ([Key(key)] + rest)[1..] == rest;
  }

  /** The finding of a block depends on the block alone, whatever stands before and after it. */
  lemma NoLeak(before: seq<string>, key: string, body: seq<string>, after: seq<string>)
    requires InPackages(false, Classified(before)) && Classify(key).Key?
    requires (forall i :: 0 <= i < |body| ==> Classify(body[i]) == Other(body[i])) && AtBoundary(Classified(after))
    ensures BlockWise(before + ([key] + (body + after)))
         == BlockWise(before)
            + (BlockFinding(Block(Classify(key).key, body)) + FindingsOf(Cut(true, Classified(after))))
  {
    var block, rest := Block(Classify(key).key, body), Classified(after);
    var whole := [Classify(key)] + (Others(body) + rest);
    ClassifiedAppend(before, [key] + (body + after));
    ClassifiedAppend([key], body + after);
    ClassifiedAppend(body, after);
    assert Classified([key]) == [Classify(key)] && Classified(body) == Others(body);
    CutAppend(false, Classified(before), whole);
    BlockUnfolds(Classify(key).key, body, rest);
    FindingsOfAppend(Cut(false, Classified(before)), [block] + Cut(true, rest));
    FindingsOfWhole(Some(block), Cut(true, rest));
  }
}
