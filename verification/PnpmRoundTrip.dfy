/**
 Printing packages the ways pnpm writes them and reading them back: bare and quoted keys, old keys
 with a slash in front, peer suffixes, and the integrity inline or in a block of its own.
 */
module PnpmRoundTrip {
  import opened Wrappers
  import opened Text
  import opened Coordinates
  import opened Findings
  import opened PnpmLock

  datatype Quote = Bare | Single | Double

  function Mark(q: Quote): string {
    match q
    case Bare => ""
    case Single => "'"
    case Double => "\""
  }

  function Quoted(q: Quote, s: string): string {
    Mark(q) + s + Mark(q)
  }

  datatype Locked = Locked(scope: Option<string>, name: string, version: string, integrity: Option<string>)

  function FullName(p: Locked): string {
    if p.scope.Some? then "@" + p.scope.value + "/" + p.name else p.name
  }

  predicate IsOuter(c: char) {
    c == ' ' || c == '/' || c == ':' || c == '\'' || c == '"'
  }

  predicate WellFormed(p: Locked) {
    && p.name != "" && p.version != "" && '(' !in p.name && '(' !in p.version && '@' !in p.version
    && !IsOuter(p.version[|p.version| - 1])
    && (p.scope.None? ==> !IsOuter(p.name[0]) && p.name[0] != '@')
    && (p.scope.Some? ==> p.scope.value != "" && p.scope.value[0] != '@' && '/' !in p.scope.value && '(' !in p.scope.value)
    && (p.integrity.Some? ==> IsValue(p.integrity.value))
  }

  predicate IsValue(v: string) {
    v != "" && NoWhitespace(v) && ',' !in v && '}' !in v && '\'' !in v && '"' !in v
  }

  /** Where the integrity stands: among the fields of an inline mapping, or in a block below other lines. */
  datatype Resolution = Inline(before: seq<string>, quote: Quote, after: seq<string>) | Mapping(before: seq<string>, quote: Quote)

  datatype Style = Style(
    quote: Quote, slash: bool, peers: string, head: seq<string>, resolution: Resolution, tail: seq<string>, gap: bool)

  /** Another field of an inline mapping. */
  predicate IsField(f: string) {
    ',' !in f && '}' !in f && !("integrity: " <= Trim(f))
  }

  /** A line of a package that has nothing to do with its resolution. */
  predicate IsAside(line: string) {
    "    " <= line && !("    resolution: {" <= line) && !("      integrity: " <= line) && Trim(line) != "resolution:"
  }

  predicate IsStyle(s: Style) {
    && (s.peers == "" || (s.peers[0] == '(' && s.peers[|s.peers| - 1] == ')'))
    && (forall l :: l in s.head + s.tail ==> IsAside(l))
    && match s.resolution
       case Inline(before, _, after) => forall f :: f in before + after ==> IsField(f)
       case Mapping(before, _) => forall l :: l in before ==> IsAside(l) && "      " <= l
  }

  // ------------------------------------------------------------------- the printer

  function Core(p: Locked): string {
    FullName(p) + "@" + p.version
  }

  function KeyText(p: Locked, s: Style): string {
    (if s.slash then "/" else "") + (Core(p) + s.peers)
  }

  function KeyLine(p: Locked, s: Style): string {
    "  " + Quoted(s.quote, KeyText(p, s)) + ":"
  }

  function IntegrityField(value: string, q: Quote): string {
    "integrity: " + Quoted(q, value)
  }

  function ResolutionLines(value: string, r: Resolution): seq<string> {
    match r
    case Inline(before, q, after) =>
      var field := (if before == [] then "" else " ") + IntegrityField(value, q);
      ["    resolution: {" + (Join(before + [field] + after, ',') + "}")]
    case Mapping(before, q) => ["    resolution:"] + before + ["      integrity: " + Quoted(q, value)]
  }

  function Body(p: Locked, s: Style): seq<string> {
    s.head + (if p.integrity.Some? then ResolutionLines(p.integrity.value, s.resolution) else []) + s.tail
  }

  function PrintPackage(p: Locked, s: Style): seq<string> {
    [KeyLine(p, s)] + Body(p, s) + if s.gap then [""] else []
  }

  function PrintPackages(ps: seq<(Locked, Style)>): seq<string> {
    if ps == [] then [] else PrintPackage(ps[0].0, ps[0].1) + PrintPackages(ps[1..])
  }

  // ----------------------------------------------------------------------- the key

  lemma MarkTrims(q: Quote, s: string)
    requires s != "" && !IsOuter(s[|s| - 1]) && s[0] != '\'' && s[0] != '"'
    ensures TrimMatches(Quoted(q, s), c => c == '\'' || c == '"') == s
  {
    var quotes := (c: char) => c == '\'' || c == '"';
    var m := Mark(q);
    assert forall i :: 0 <= i < |m| ==> quotes(m[i]);
    assert Quoted(q, s) == m + (s + m);
    assert (s + m)[0] == s[0];
    TrimStartSkips(m, s + m, quotes);
    TrimEndDrops(s, m, quotes);
  }

  lemma KeyIsRead(key: string, q: Quote, line: string)
    requires line == "  " + Quoted(q, key) + ":" && key != ""
    requires !IsOuter(key[|key| - 1]) && (key[0] == '/' || !IsOuter(key[0]))
    ensures Classify(line) == Key(key)
  {
    var text := Quoted(q, key);
    assert line[0] == ' ' && line[..2] == "  " && line[2..] == text + ":";
    assert text[0] == if q.Bare? then key[0] else Mark(q)[0];
    assert text[|text| - 1] == if q.Bare? then key[|key| - 1] else Mark(q)[0];
    TrimEndDrops(text, ":", Is(':'));
    MarkTrims(q, key);
  }

  lemma CoreEnds(p: Locked)
    requires WellFormed(p)
    ensures var core := Core(p);
            && core != "" && !IsOuter(core[|core| - 1]) && !IsOuter(core[0]) && '(' !in core
            && core[0] == FullName(p)[0] && FullName(p) != ""
  {
    var core := Core(p);
    assert core[|core| - 1] == p.version[|p.version| - 1];
    assert '(' !in "@" && '(' !in "/";
    assert '(' !in FullName(p);
  }

  lemma KeyEnds(p: Locked, s: Style)
    requires WellFormed(p) && IsStyle(s)
    ensures var key := KeyText(p, s);
            key != "" && !IsOuter(key[|key| - 1]) && (key[0] == '/' || !IsOuter(key[0]))
  {
    CoreEnds(p);
    var key := KeyText(p, s);
    assert key[|key| - 1] == if s.peers == "" then Core(p)[|Core(p)| - 1] else ')';
    assert key[0] == if s.slash then '/' else Core(p)[0];
  }

  lemma TrimSlash(slash: bool, text: string)
    requires text != "" && text[0] != '/' && text[|text| - 1] != '/'
    ensures TrimMatches((if slash then "/" else "") + text, Is('/')) == text
  {
    var pre := if slash then "/" else "";
    assert forall i :: 0 <= i < |pre| ==> Is('/')(pre[i]);
    TrimStartSkips(pre, text, Is('/'));
  }

  lemma PeersCut(core: string, peers: string)
    requires '(' !in core && (peers == "" || peers[0] == '(')
    ensures Before(core + peers, '(') == core
  {
    if peers == "" {
      assert core + peers == core;
    } else {
      assert core + peers == core + ['('] + peers[1..];
      FindFirst(core, '(', peers[1..]);
      assert (core + peers)[..|core|] == core;
    }
  }

  lemma ScopedSplit(name: string, version: string, slash: nat)
    requires Find(name, '/') == Some(slash) && '@' !in version
    ensures FindLast((name + ['@'] + version)[slash + 1..], '@') == Some(|name| - slash - 1)
  {
    assert (name + ['@'] + version)[slash + 1..] == name[slash + 1..] + ['@'] + version;
    FindLastOnly(name[slash + 1..], '@', version);
  }

  lemma FirstInPrefix(a: string, b: string, c: char)
    requires c in a
    ensures Find(a + b, c) == Find(a, c)
  {
    var i := Find(a, c).value;
    assert a + b == a[..i] + [c] + (a[i + 1..] + b);
    FindFirst(a[..i], c, a[i + 1..] + b);
  }

  lemma SplitCore(base: string, name: string, version: string)
    requires base == name + ['@'] + version && '@' !in version
    requires name != "" && (name[0] == '@' ==> '/' in name)
    ensures SplitBase(base) == (name, version)
  {
    assert base[0] == name[0];
    assert base[..|name|] == name && base[|name| + 1..] == version;
    if name[0] == '@' {
      assert base == name + (['@'] + version);
      FirstInPrefix(name, ['@'] + version, '/');
      ScopedSplit(name, version, Find(name, '/').value);
    } else {
      FindLastOnly(name, '@', version);
    }
  }

  lemma NameHasSlash(p: Locked)
    requires WellFormed(p)
    ensures FullName(p) != "" && (FullName(p)[0] == '@' ==> '/' in FullName(p))
  {
    if p.scope.Some? { assert FullName(p)[1 + |p.scope.value|] == '/'; }
  }

  /** A printed key splits into the full name and the version, slash and peers aside. */
  lemma SplitPrintedKey(p: Locked, s: Style)
    requires WellFormed(p) && IsStyle(s)
    ensures SplitKey(KeyText(p, s)) == (FullName(p), p.version)
  {
    CoreEnds(p);
    var core, text := Core(p), Core(p) + s.peers;
    assert text[0] == core[0] && text[|text| - 1] == if s.peers == "" then core[|core| - 1] else ')';
    TrimSlash(s.slash, text);
    PeersCut(core, s.peers);
    NameHasSlash(p);
    assert core == FullName(p) + ['@'] + p.version;
    SplitCore(core, FullName(p), p.version);
  }

  // ------------------------------------------------------------------- the integrity

  lemma ScalarBack(q: Quote, v: string)
    requires IsValue(v)
    ensures Scalar(Quoted(q, v)) == v
  {
    var text, m := Quoted(q, v), Mark(q);
    assert text[0] == (if q.Bare? then v[0] else m[0]) && text[|text| - 1] == (if q.Bare? then v[|v| - 1] else m[0]);
    TrimNothing(text);
    assert TrimEndMatches(text, Is(',')) == text;
    match q
    case Bare => assert text == v;
    case Single =>
      QuotesOff('\'', v);
    case Double =>
      assert TrimMatches(text, Is('\'')) == text;
      QuotesOff('"', v);
  }

  lemma QuotesOff(c: char, v: string)
    requires v != "" && c !in v
    ensures TrimMatches([c] + v + [c], Is(c)) == v
  {
    assert [c] + v + [c] == [c] + (v + [c]);
    assert (v + [c])[0] == v[0];
    TrimStartSkips([c], v + [c], Is(c));
    TrimEndDrops(v, [c], Is(c));
  }

  lemma {:induction false} FirstSkips(before: seq<string>, field: string, after: seq<string>, v: string)
    requires forall f :: f in before ==> !("integrity: " <= Trim(f))
    requires "integrity: " <= Trim(field) && Scalar(Trim(field)[11..]) == v
    ensures FirstIntegrity(before + [field] + after) == Some(v)
  {
    var all := before + [field] + after;
    if before == [] {
      assert all[0] == field;
    } else {
      assert before[0] in before && forall f :: f in before[1..] ==> f in before;
      assert all[0] == before[0] && all[1..] == before[1..] + [field] + after;
      FirstSkips(before[1..], field, after, v);
    }
  }

  lemma FieldTrims(lead: bool, v: string, q: Quote)
    requires IsValue(v)
    ensures var t := Trim((if lead then "" else " ") + IntegrityField(v, q));
            "integrity: " <= t && Scalar(t[11..]) == v
  {
    var t := IntegrityField(v, q);
    assert t == "integrity: " + Quoted(q, v) && t[..11] == "integrity: " && t[11..] == Quoted(q, v);
    assert t[0] == 'i' && t[|t| - 1] == if q.Bare? then v[|v| - 1] else Mark(q)[0];
    TrimNothing(t);
    TrimStartSkips(" ", t, IsWhitespace);
    assert "" + t == t;
    ScalarBack(q, v);
  }

  lemma FieldIsPlain(lead: bool, v: string, q: Quote)
    requires IsValue(v)
    ensures var field := (if lead then "" else " ") + IntegrityField(v, q);
            ',' !in field && field != "" && field[|field| - 1] != '}'
  {
    var field := (if lead then "" else " ") + IntegrityField(v, q);
    assert ',' !in "integrity: " && ',' !in Mark(q) && ',' !in " ";
    assert field[|field| - 1] == if q.Bare? then v[|v| - 1] else Mark(q)[0];
  }

  lemma {:induction false} JoinLastChar(parts: seq<string>)
    requires parts != [] && parts[|parts| - 1] != "" ==> parts[|parts| - 1][|parts[|parts| - 1]| - 1] != '}'
    ensures var t := Join(parts, ','); t != "" ==> t[|t| - 1] != '}'
  {
    if |parts| > 1 {
      JoinLastChar(parts[1..]);
      var t, rest := Join(parts, ','), Join(parts[1..], ',');
      assert t == parts[0] + [','] + rest;
    }
  }

  lemma InlineBack(before: seq<string>, q: Quote, after: seq<string>, v: string)
    requires IsValue(v) && forall f :: f in before + after ==> IsField(f)
    ensures var field := (if before == [] then "" else " ") + IntegrityField(v, q);
            InlineIntegrity(Join(before + [field] + after, ',') + "}") == Some(v)
  {
    var field := (if before == [] then "" else " ") + IntegrityField(v, q);
    var all := before + [field] + after;
    FieldTrims(before == [], v, q);
    FieldIsPlain(before == [], v, q);
    forall i | 0 <= i < |all| ensures ',' !in all[i] {
      if i < |before| { assert all[i] in before + after; }
      if i > |before| { assert all[i] == after[i - |before| - 1] && all[i] in before + after; }
    }
    if after != [] { assert after[|after| - 1] in before + after; }
    JoinLastChar(all);
    TrimEndDrops(Join(all, ','), "}", Is('}'));
    SplitJoin(all, ',');
    assert forall f :: f in before ==> f in before + after;
    FirstSkips(before, field, after, v);
  }

  lemma {:induction false} AsidesKeep(body: seq<string>, asides: seq<string>)
    requires forall l :: l in asides ==> IsAside(l)
    ensures BlockIntegrity(body + asides) == BlockIntegrity(body)
    decreases |asides|
  {
    if asides == [] {
      assert body + asides == body;
    } else {
      var front, l := asides[..|asides| - 1], asides[|asides| - 1];
      assert l in asides && forall x :: x in front ==> x in asides;
      assert (body + asides)[..|body + asides| - 1] == body + front && (body + asides)[|body + asides| - 1] == l;
      AsidesKeep(body, front);
    }
  }

  lemma {:induction false} DeepStaysOpen(body: seq<string>, deep: seq<string>)
    requires ResolutionOpen(body) && forall l :: l in deep ==> IsAside(l) && DEEP <= l
    ensures ResolutionOpen(body + deep)
    decreases |deep|
  {
    if deep == [] {
      assert body + deep == body;
    } else {
      var front, l := deep[..|deep| - 1], deep[|deep| - 1];
      assert l in deep && forall x :: x in front ==> x in deep;
      assert (body + deep)[..|body + deep| - 1] == body + front && (body + deep)[|body + deep| - 1] == l;
      DeepStaysOpen(body, front);
    }
  }

  lemma InlineLine(body: seq<string>, rest: string)
    ensures BlockIntegrity(body + [INLINE + rest]) == InlineIntegrity(rest)
  {
    var all := body + [INLINE + rest];
    assert all[|all| - 1] == INLINE + rest && (INLINE + rest)[..|INLINE|] == INLINE && (INLINE + rest)[|INLINE|..] == rest;
  }

  lemma OpensBlock(body: seq<string>)
    ensures ResolutionOpen(body + ["    resolution:"]) && BlockIntegrity(body + ["    resolution:"]) == BlockIntegrity(body)
  {
    var line := "    resolution:";
    var all := body + [line];
    assert all[|all| - 1] == line && all[..|all| - 1] == body;
    assert line == "    " + "resolution:";
    TrimStartSkips("    ", "resolution:", IsWhitespace);
    TrimNothing("resolution:");
  }

  lemma ValueIsNoHeader(text: string)
    requires text != "" && !IsWhitespace(text[|text| - 1])
    ensures Trim(VALUE + text) != "resolution:"
  {
    var t := "integrity: " + text;
    assert VALUE + text == "      " + t;
    TrimStartSkips("      ", t, IsWhitespace);
    assert t[0] == 'i' && t[|t| - 1] == text[|text| - 1];
    TrimNothing(t);
  }

  lemma ValueLine(body: seq<string>, text: string)
    requires ResolutionOpen(body) && text != "" && !IsWhitespace(text[|text| - 1])
    ensures BlockIntegrity(body + [VALUE + text]) == Some(Scalar(text))
  {
    var line := VALUE + text;
    var all := body + [line];
    assert all[|all| - 1] == line && all[..|all| - 1] == body;
    assert line[..|VALUE|] == VALUE && line[|VALUE|..] == text && line[4] == ' ';
    ValueIsNoHeader(text);
  }

  lemma Between(head: seq<string>, x: string, before: seq<string>, y: string)
    ensures head + ([x] + before + [y]) == (head + [x]) + before + [y]
  {
  }

  lemma MappingBack(head: seq<string>, before: seq<string>, text: string)
    requires text != "" && !IsWhitespace(text[|text| - 1]) && forall l :: l in before ==> IsAside(l) && DEEP <= l
    ensures BlockIntegrity(head + (["    resolution:"] + before + [VALUE + text])) == Some(Scalar(text))
  {
    OpensBlock(head);
    DeepStaysOpen(head + ["    resolution:"], before);
    ValueLine(head + ["    resolution:"] + before, text);
    Between(head, "    resolution:", before, VALUE + text);
  }

  lemma QuotedEnds(q: Quote, v: string)
    requires IsValue(v)
    ensures var text := Quoted(q, v); text != "" && !IsWhitespace(text[|text| - 1])
  {
    var text := Quoted(q, v);
    assert text[|text| - 1] == if q.Bare? then v[|v| - 1] else Mark(q)[0];
  }

  lemma ResolutionBack(head: seq<string>, r: Resolution, v: string)
    requires IsValue(v)
    requires r.Inline? ==> forall f :: f in r.before + r.after ==> IsField(f)
    requires r.Mapping? ==> forall l :: l in r.before ==> IsAside(l) && DEEP <= l
    ensures BlockIntegrity(head + ResolutionLines(v, r)) == Some(v)
  {
    match r
    case Inline(before, q, after) =>
      var rest := Join(before + [(if before == [] then "" else " ") + IntegrityField(v, q)] + after, ',') + "}";
      InlineBack(before, q, after, v);
      InlineLine(head, rest);
      assert ResolutionLines(v, r) == [INLINE + rest];
    case Mapping(before, q) =>
      QuotedEnds(q, v);
      MappingBack(head, before, Quoted(q, v));
      ScalarBack(q, v);
  }

  /** The block of a printed package holds its integrity. */
  lemma BodyBack(p: Locked, s: Style)
    requires WellFormed(p) && IsStyle(s)
    ensures BlockIntegrity(Body(p, s)) == p.integrity
  {
    assert forall l :: l in s.head ==> l in s.head + s.tail;
    assert forall l :: l in s.tail ==> l in s.head + s.tail;
    assert [] + s.head == s.head;
    AsidesKeep([], s.head);
    var middle := if p.integrity.Some? then ResolutionLines(p.integrity.value, s.resolution) else [];
    if p.integrity.Some? {
      ResolutionBack(s.head, s.resolution, p.integrity.value);
    } else {
      assert s.head + [] == s.head;
    }
    AsidesKeep(s.head + middle, s.tail);
  }

  // -------------------------------------------------------------------- the whole file

  lemma AsideIsOther(line: string)
    requires "    " <= line
    ensures Classify(line) == Other(line)
  {
    assert line[0] == ' ' && line[2] == ' ';
  }

  lemma ResolutionIsOther(r: Resolution, v: string)
    requires r.Mapping? ==> forall l :: l in r.before ==> IsAside(l)
    ensures forall l :: l in ResolutionLines(v, r) ==> Classify(l) == Other(l)
  {
    forall l | l in ResolutionLines(v, r) ensures "    " <= l {
      if r.Inline? {
        assert l[..4] == "    ";
      } else if l !in r.before {
        assert l[..4] == "    ";
      }
    }
    forall l | l in ResolutionLines(v, r) ensures Classify(l) == Other(l) { AsideIsOther(l); }
  }

  lemma BodyIsOther(p: Locked, s: Style)
    requires IsStyle(s)
    ensures Classified(Body(p, s)) == Others(Body(p, s))
  {
    var body := Body(p, s);
    if p.integrity.Some? { ResolutionIsOther(s.resolution, p.integrity.value); }
    forall i | 0 <= i < |body| ensures Classify(body[i]) == Other(body[i]) {
      assert body[i] in body;
      if body[i] in s.head + s.tail { AsideIsOther(body[i]); }
    }
  }

  /** A fresh npm finding with the scope as namespace. */
  lemma FindingBack(p: Locked)
    requires WellFormed(p)
    ensures NewFinding(Npm, FullName(p), Some(p.version), p.integrity)
         == Finding(Coordinate(Npm, p.name, Some(p.version), p.scope), p.integrity, Allow)
  {
    if p.scope.Some? {
      var scope := "@" + p.scope.value;
      assert '/' !in scope by { assert '/' !in "@"; }
      assert FullName(p) == scope + ['/'] + p.name;
      SplitOnceAt(scope, '/', p.name);
      assert scope[1..] == p.scope.value && FullName(p)[0] == '@';
      assert TrimStartMatches(scope, Is('@')) == p.scope.value;
    }
  }

  lemma PackageBack(p: Locked, s: Style)
    requires WellFormed(p) && IsStyle(s)
    ensures BlockFinding(Block(KeyText(p, s), Body(p, s)))
         == [Finding(Coordinate(Npm, p.name, Some(p.version), p.scope), p.integrity, Allow)]
  {
    SplitPrintedKey(p, s);
    NameHasSlash(p);
    BodyBack(p, s);
    FindingBack(p);
  }

  lemma GapIsBoundary(gap: bool, after: seq<string>)
    requires AtBoundary(Classified(after))
    ensures AtBoundary(Classified((if gap then [""] else []) + after))
    ensures Cut(true, Classified((if gap then [""] else []) + after)) == Cut(true, Classified(after))
  {
    if gap {
      ClassifiedAppend([""], after);
      assert Classified([""]) == [Section("")];
      assert ([Section("")] + Classified(after))[1..] == Classified(after);
    } else {
      assert [] + after == after;
    }
  }

  lemma Roles(line: string, key: string, body: seq<string>, gap: seq<string>, after: seq<string>)
    requires Classify(line) == Key(key) && Classified(body) == Others(body)
    ensures Classified(([line] + body + gap) + after) == [Key(key)] + (Others(body) + Classified(gap + after))
  {
    assert ([line] + body + gap) + after == [line] + (body + (gap + after));
    ClassifiedAppend([line], body + (gap + after));
    ClassifiedAppend(body, gap + after);
    assert Classified([line]) == [Key(key)];
  }

  lemma PrintedRoles(p: Locked, s: Style, after: seq<string>)
    requires WellFormed(p) && IsStyle(s)
    ensures Classified(PrintPackage(p, s) + after)
         == [Key(KeyText(p, s))] + (Others(Body(p, s)) + Classified((if s.gap then [""] else []) + after))
  {
    KeyEnds(p, s);
    KeyIsRead(KeyText(p, s), s.quote, KeyLine(p, s));
    BodyIsOther(p, s);
    Roles(KeyLine(p, s), KeyText(p, s), Body(p, s), if s.gap then [""] else [], after);
  }

  lemma ReadPrintedPackage(p: Locked, s: Style, after: seq<string>)
    requires WellFormed(p) && IsStyle(s) && AtBoundary(Classified(after))
    ensures AtBoundary(Classified(PrintPackage(p, s) + after))
    ensures FindingsOf(Cut(true, Classified(PrintPackage(p, s) + after)))
         == [Finding(Coordinate(Npm, p.name, Some(p.version), p.scope), p.integrity, Allow)]
            + FindingsOf(Cut(true, Classified(after)))
  {
    var gap := if s.gap then [""] else [];
    var block := Block(KeyText(p, s), Body(p, s));
    PrintedRoles(p, s, after);
    GapIsBoundary(s.gap, after);
    BlockUnfolds(KeyText(p, s), Body(p, s), Classified(gap + after));
    FindingsOfWhole(Some(block), Cut(true, Classified(after)));
    PackageBack(p, s);
  }

  ghost predicate AllPrintable(ps: seq<(Locked, Style)>) {
    forall i :: 0 <= i < |ps| ==> WellFormed(ps[i].0) && IsStyle(ps[i].1)
  }

  function Expected(ps: seq<(Locked, Style)>): seq<Finding> {
    seq(|ps|, i requires 0 <= i < |ps| =>
      var p := ps[i].0; Finding(Coordinate(Npm, p.name, Some(p.version), p.scope), p.integrity, Allow))
  }

  lemma ExpectedCons(ps: seq<(Locked, Style)>, f: Finding, rest: seq<Finding>)
    requires ps != []
    requires var p := ps[0].0; f == Finding(Coordinate(Npm, p.name, Some(p.version), p.scope), p.integrity, Allow)
    ensures [f] + (Expected(ps[1..]) + rest) == Expected(ps) + rest
  {
    assert Expected(ps) == [f] + Expected(ps[1..]);
  }

  lemma PrintedCons(ps: seq<(Locked, Style)>, after: seq<string>)
    requires ps != []
    ensures PrintPackages(ps) + after == PrintPackage(ps[0].0, ps[0].1) + (PrintPackages(ps[1..]) + after)
  {
    Grouped(PrintPackage(ps[0].0, ps[0].1), PrintPackages(ps[1..]), after);
  }

  lemma Grouped(a: seq<string>, b: seq<string>, c: seq<string>)
    ensures (a + b) + c == a + (b + c)
  {
  }

  /** Reading a printed `packages:` section returns its packages, each with its own integrity. */
  lemma {:induction false} ReadPrintedPackages(ps: seq<(Locked, Style)>, after: seq<string>)
    requires AllPrintable(ps) && AtBoundary(Classified(after))
    ensures AtBoundary(Classified(PrintPackages(ps) + after))
    ensures FindingsOf(Cut(true, Classified(PrintPackages(ps) + after))) == Expected(ps) + FindingsOf(Cut(true, Classified(after)))
    decreases |ps|
  {
    var rest := FindingsOf(Cut(true, Classified(after)));
    if ps == [] {
      assert PrintPackages(ps) + after == after;
      assert Expected(ps) + rest == rest;
    } else {
      var p := ps[0].0;
      ReadPrintedPackages(ps[1..], after);
      ReadPrintedPackage(p, ps[0].1, PrintPackages(ps[1..]) + after);
      PrintedCons(ps, after);
      ExpectedCons(ps, Finding(Coordinate(Npm, p.name, Some(p.version), p.scope), p.integrity, Allow), rest);
    }
  }

  /** Lines in which no `packages:` section starts. */
  predicate IsElsewhere(lines: seq<string>) {
    forall i :: 0 <= i < |lines| ==> lines[i] != "packages:"
  }

  lemma {:induction false} NothingElsewhere(lines: seq<string>)
    requires IsElsewhere(lines)
    ensures Cut(false, Classified(lines)) == [] && !InPackages(false, Classified(lines))
    decreases |lines|
  {
    if lines != [] {
      assert Classified(lines)[1..] == Classified(lines[1..]);
      NothingElsewhere(lines[1..]);
    }
  }

  lemma OtherSection(back: seq<string>)
    requires IsElsewhere(back) && (back == [] || (back[0] != "" && IsSection(back[0])))
    ensures AtBoundary(Classified(back)) && Cut(true, Classified(back)) == []
  {
    if back != [] {
      assert Classified(back)[1..] == Classified(back[1..]);
      NothingElsewhere(back[1..]);
    }
  }

  lemma SectionHeader(rest: seq<string>)
    ensures AtBoundary(Classified(["packages:"] + rest))
    ensures Cut(false, Classified(["packages:"] + rest)) == Cut(true, Classified(rest))
  {
    var roles := Classified(["packages:"] + rest);
    assert "packages:"[0] == 'p';
    assert roles[0] == Section("packages:") && roles[1..] == Classified(rest);
  }

  /** Reading a whole lockfile returns its packages in order, field by field, whatever other sections hold. */
  lemma ReadPrintedFile(front: seq<string>, ps: seq<(Locked, Style)>, back: seq<string>)
    requires AllPrintable(ps) && IsElsewhere(front) && IsElsewhere(back)
    requires back == [] || (back[0] != "" && IsSection(back[0]))
    ensures var found := BlockWise(front + (["packages:"] + (PrintPackages(ps) + back)));
            && |found| == |ps|
            && forall i :: 0 <= i < |ps| ==>
                 && found[i].coordinate == Coordinate(Npm, ps[i].0.name, Some(ps[i].0.version), ps[i].0.scope)
                 && found[i].integrity == ps[i].0.integrity && found[i].decision == Allow
  {
    var rest := PrintPackages(ps) + back;
    OtherSection(back);
    ReadPrintedPackages(ps, back);
    SectionHeader(rest);
    NothingElsewhere(front);
    ClassifiedAppend(front, ["packages:"] + rest);
    CutAppend(false, Classified(front), Classified(["packages:"] + rest));
    assert [] + Cut(true, Classified(rest)) == Cut(true, Classified(rest));
    assert Expected(ps) + [] == Expected(ps);
  }
}
