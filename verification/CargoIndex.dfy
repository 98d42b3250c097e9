/**
 Dependency resolution in `Cargo.lock`: three indexes over the packages, by exact key, by name and
 version, and by name, and the dependency strings `name`, `name version`, `name version (source)`.
 */
module CargoIndex {
  import opened Wrappers
  import opened Text

  /** A package of the lockfile with the reference of its component. */
  datatype Package = Package(name: string, version: string, source: Option<string>, reference: string)

  datatype Spec = Spec(name: string, version: Option<string>, source: Option<string>)

  // --------------------------------------------------------------- the indexes

  function Key(name: string, version: string, source: Option<string>): string {
    name + "@" + version + "|" + source.UnwrapOr("")
  }

  datatype Indexes = Indexes(
    exact: map<string, string>,
    versions: map<(string, string), seq<string>>,
    names: map<string, seq<string>>)

  function Lookup<K>(m: map<K, seq<string>>, k: K): seq<string> {
    if k in m then m[k] else []
  }

  /** The references of the packages that satisfy `p`, in lockfile order. */
  function Scan(ps: seq<Package>, p: Package -> bool): seq<string> {
    if ps == [] then []
    else
      var last := ps[|ps| - 1];
      Scan(ps[..|ps| - 1], p) + if p(last) then [last.reference] else []
  }

  function Named(name: string): Package -> bool {
    (p: Package) => p.name == name
  }

  function Versioned(name: string, version: string): Package -> bool {
    (p: Package) => p.name == name && p.version == version
  }

  /** What the exact index knows: the last package with each key. */
  function ExactIndex(ps: seq<Package>): map<string, string> {
    if ps == [] then map[]
    else
      var last := ps[|ps| - 1];
      ExactIndex(ps[..|ps| - 1])[Key(last.name, last.version, last.source) := last.reference]
  }

  ghost predicate Indexed(ps: seq<Package>, ix: Indexes) {
    && ix.exact == ExactIndex(ps)
    && (forall n, v :: Lookup(ix.versions, (n, v)) == Scan(ps, Versioned(n, v)))
    && (forall n :: Lookup(ix.names, n) == Scan(ps, Named(n)))
  }

  lemma ScanStep(ps: seq<Package>, i: nat, p: Package -> bool)
    requires i < |ps|
    ensures Scan(ps[..i + 1], p) == Scan(ps[..i], p) + if p(ps[i]) then [ps[i].reference] else []
  {
    assert ps[..i + 1][..i] == ps[..i];
  }

  method BuildIndexes(ps: seq<Package>) returns (ix: Indexes)
    ensures Indexed(ps, ix)
  {
    ix := Indexes(map[], map[], map[]);
    for i := 0 to |ps|
      invariant Indexed(ps[..i], ix)
    {
      var p := ps[i];
      forall q: Package -> bool { ScanStep(ps, i, q); }
      assert ps[..i + 1][..i] == ps[..i];
      var byVersion := Lookup(ix.versions, (p.name, p.version)) + [p.reference];
      var byName := Lookup(ix.names, p.name) + [p.reference];
      ix := Indexes(
        ix.exact[Key(p.name, p.version, p.source) := p.reference],
        ix.versions[(p.name, p.version) := byVersion],
        ix.names[p.name := byName]);
    }
    assert ps[..|ps|] == ps;
  }

  // -------------------------------------------------------------- resolving a spec

  function ResolveSpec(ix: Indexes, spec: Spec): seq<string> {
    match spec.version
    case Some(version) =>
      (match spec.source
       case Some(source) =>
         var key := Key(spec.name, version, Some(source));
         if key in ix.exact then [ix.exact[key]] else []
       case None => Lookup(ix.versions, (spec.name, version)))
    case None => Lookup(ix.names, spec.name)
  }

  /** By name, by version if given, and by source if that is given as well. */
  function Matches(spec: Spec): Package -> bool {
    (p: Package) => p.name == spec.name
         && (spec.version.Some? ==> p.version == spec.version.value && (spec.source.Some? ==> p.source == spec.source))
  }

  /** References are a function of name, version and source. */
  ghost predicate Referenced(ps: seq<Package>) {
    forall p, q :: p in ps && q in ps && p.name == q.name && p.version == q.version && p.source == q.source
                   ==> p.reference == q.reference
  }

  predicate PlainName(name: string, version: string) {
    '@' !in name && '|' !in version
  }

  lemma KeyInjective(n: string, v: string, s: Option<string>, n': string, v': string, s': Option<string>)
    requires PlainName(n, v) && PlainName(n', v') && Key(n, v, s) == Key(n', v', s')
    ensures n == n' && v == v' && s.UnwrapOr("") == s'.UnwrapOr("")
  {
    var rest, rest' := v + ['|'] + s.UnwrapOr(""), v' + ['|'] + s'.UnwrapOr("");
    assert Key(n, v, s) == n + ['@'] + rest && Key(n', v', s') == n' + ['@'] + rest';
    SplitOnceAt(n, '@', rest);
    SplitOnceAt(n', '@', rest');
    SplitOnceAt(v, '|', s.UnwrapOr(""));
    SplitOnceAt(v', '|', s'.UnwrapOr(""));
  }

  lemma {:induction false} ScanMembers(ps: seq<Package>, p: Package -> bool, r: string)
    ensures r in Scan(ps, p) <==> exists q :: q in ps && p(q) && q.reference == r
  {
    if ps != [] {
      var front, last := ps[..|ps| - 1], ps[|ps| - 1];
      ScanMembers(front, p, r);
      assert ps == front + [last];
      if q :| q in front && p(q) && q.reference == r { assert q in ps; }
      assert last in ps;
    }
  }

  lemma {:induction false} ScanEqual(ps: seq<Package>, p: Package -> bool, q: Package -> bool)
    requires forall x :: x in ps ==> p(x) == q(x)
    ensures Scan(ps, p) == Scan(ps, q)
  {
    if ps != [] {
      assert ps[|ps| - 1] in ps;
      ScanEqual(ps[..|ps| - 1], p, q);
    }
  }

  /** The exact index holds a key exactly when some package has it, and gives the reference of one that has. */
  lemma {:induction false} ExactFinds(ps: seq<Package>, key: string)
    ensures key in ExactIndex(ps) <==> exists p :: p in ps && Key(p.name, p.version, p.source) == key
    ensures key in ExactIndex(ps) ==>
              exists p :: p in ps && Key(p.name, p.version, p.source) == key && p.reference == ExactIndex(ps)[key]
  {
    if ps != [] {
      var front, last := ps[..|ps| - 1], ps[|ps| - 1];
      ExactFinds(front, key);
      assert ps == front + [last] && last in ps;
      assert forall p :: p in front ==> p in ps;
    }
  }

  /** The indexes answer every spec like a linear scan of the packages. */
  lemma IndexesAgree(ps: seq<Package>, ix: Indexes, spec: Spec)
    requires Indexed(ps, ix) && Referenced(ps)
    requires spec.version.Some? && spec.source.Some? ==>
               && spec.source.value != "" && PlainName(spec.name, spec.version.value)
               && forall p :: p in ps ==> PlainName(p.name, p.version)
    ensures spec.version.None? || spec.source.None? ==> ResolveSpec(ix, spec) == Scan(ps, Matches(spec))
    ensures Agrees(ps, ix, spec)
  {
    if spec.version.None? {
      ScanEqual(ps, Matches(spec), Named(spec.name));
    } else if spec.source.None? {
      ScanEqual(ps, Matches(spec), Versioned(spec.name, spec.version.value));
    } else {
      var key := Key(spec.name, spec.version.value, spec.source);
      forall p | p in ps && Key(p.name, p.version, p.source) == key ensures Matches(spec)(p) {
        KeyInjective(p.name, p.version, p.source, spec.name, spec.version.value, spec.source);
      }
      ExactAgrees(ps, ix, spec);
    }
  }

  /** When only matching packages have the key of the spec, the exact index finds just those. */
  lemma ExactAgrees(ps: seq<Package>, ix: Indexes, spec: Spec)
    requires Indexed(ps, ix) && Referenced(ps) && spec.version.Some? && spec.source.Some?
    requires forall p :: p in ps && Key(p.name, p.version, p.source) == Key(spec.name, spec.version.value, spec.source)
                         ==> Matches(spec)(p)
    ensures forall r :: r in ResolveSpec(ix, spec) <==> r in Scan(ps, Matches(spec))
  {
    ExactFinds(ps, Key(spec.name, spec.version.value, spec.source));
    forall r ensures r in ResolveSpec(ix, spec) <==> r in Scan(ps, Matches(spec)) {
      ScanMembers(ps, Matches(spec), r);
    }
  }

  // ---------------------------------------------------- which specs resolve rightly

  ghost predicate Agrees(ps: seq<Package>, ix: Indexes, spec: Spec) {
    forall r :: r in ResolveSpec(ix, spec) <==> r in Scan(ps, Matches(spec))
  }

  /** The key of name, version and source can be taken apart in one way only. */
  predicate Unambiguous(name: string, version: string, source: string) {
    '@' !in name && '@' !in version && '|' !in version && '|' !in source && source != ""
  }

  /** Specs without version or source do not use the key. */
  predicate IsUnambiguous(spec: Spec) {
    spec.version.None? || spec.source.None? || Unambiguous(spec.name, spec.version.value, spec.source.value)
  }

  lemma OnlyAt(a: string, c: char, b: string, x: string, y: string)
    requires c !in a && c !in b && a + [c] + b == x + [c] + y
    ensures a == x && b == y
  {
    var s := a + [c] + b;
    assert s[|x|] == c;
    assert |x| == |a|;
    assert s[..|a|] == a && s[|a| + 1..] == b;
    assert s[..|x|] == x && s[|x| + 1..] == y;
  }

  lemma NameHasNoAt(name: string, version: string, source: string, n: string, v: string, s: string)
    requires '@' !in name && '@' !in version && '|' !in version && '|' !in source
    requires name + ['@'] + (version + ['|'] + source) == n + ['@'] + (v + ['|'] + s)
    ensures '@' !in n
  {
    if '@' in n {
      var k := Find(n, '@').value;
      var x := n[k + 1..];
      assert n + ['@'] + (v + ['|'] + s) == n[..k] + ['@'] + ((x + ['@'] + v) + ['|'] + s);
      SplitOnceAt(name, '@', version + ['|'] + source);
      SplitOnceAt(n[..k], '@', (x + ['@'] + v) + ['|'] + s);
      assert '@' in x + ['@'] + v;
      OnlyAt(version, '|', source, x + ['@'] + v, s);
    }
  }

  lemma OnlySplit(name: string, version: string, source: string, n: string, v: string, s: string)
    requires '@' !in name && '@' !in version && '|' !in version && '|' !in source
    requires name + ['@'] + (version + ['|'] + source) == n + ['@'] + (v + ['|'] + s)
    ensures name == n && version == v && source == s
  {
    NameHasNoAt(name, version, source, n, v, s);
    SplitOnceAt(name, '@', version + ['|'] + source);
    SplitOnceAt(n, '@', v + ['|'] + s);
    OnlyAt(version, '|', source, v, s);
  }

  lemma KeyShape(name: string, version: string, source: Option<string>)
    ensures Key(name, version, source) == name + ['@'] + (version + ['|'] + source.UnwrapOr(""))
  {
  }

  /** Whatever its name and version hold, a package with such a key is the one that is meant. */
  lemma UnambiguousKey(p: Package, name: string, version: string, source: string)
    requires Unambiguous(name, version, source) && Key(p.name, p.version, p.source) == Key(name, version, Some(source))
    ensures p.name == name && p.version == version && p.source == Some(source)
  {
    KeyShape(name, version, Some(source));
    KeyShape(p.name, p.version, p.source);
    OnlySplit(name, version, source, p.name, p.version, p.source.UnwrapOr(""));
  }

  /** The package an ambiguous spec is mistaken for. */
  function Confused(name: string, version: string, source: string): (p: Package)
    requires !Unambiguous(name, version, source)
    ensures Key(p.name, p.version, p.source) == Key(name, version, Some(source))
    ensures !(p.name == name && p.version == version && p.source == Some(source))
  {
    if '@' in name then
      var k := Find(name, '@').value;
      Package(name[..k], name[k + 1..] + "@" + version, Some(source), "")
    else if '@' in version then
      var k := Find(version, '@').value;
      Package(name + "@" + version[..k], version[k + 1..], Some(source), "")
    else if '|' in version then
      var k := Find(version, '|').value;
      Package(name, version[..k], Some(version[k + 1..] + "|" + source), "")
    else if '|' in source then
      var k := Find(source, '|').value;
      Package(name, version + "|" + source[..k], Some(source[k + 1..]), "")
    else Package(name, version, None, "")
  }

  /** With that package alone in the lockfile the spec resolves to it, while a scan finds nothing. */
  lemma ConfusedIsFound(spec: Spec, ix: Indexes)
    requires !IsUnambiguous(spec) && Indexed([Confused(spec.name, spec.version.value, spec.source.value)], ix)
    ensures var p := Confused(spec.name, spec.version.value, spec.source.value);
            ResolveSpec(ix, spec) == [p.reference] && Scan([p], Matches(spec)) == []
  {
    var p := Confused(spec.name, spec.version.value, spec.source.value);
    assert [p][..0] == [];
  }

  lemma OneIndexed(p: Package) returns (ix: Indexes)
    ensures Indexed([p], ix) && Referenced([p])
  {
    ix := Indexes(map[Key(p.name, p.version, p.source) := p.reference],
                  map[(p.name, p.version) := [p.reference]], map[p.name := [p.reference]]);
    assert [p][..0] == [];
    assert ExactIndex([]) == map[];
    forall q: Package -> bool ensures Scan([p], q) == if q(p) then [p.reference] else [] {}
  }

  lemma UnambiguousAgrees(ps: seq<Package>, ix: Indexes, spec: Spec)
    requires Indexed(ps, ix) && Referenced(ps) && spec.version.Some? && spec.source.Some? && IsUnambiguous(spec)
    ensures Agrees(ps, ix, spec)
  {
    forall p | p in ps && Key(p.name, p.version, p.source) == Key(spec.name, spec.version.value, spec.source)
      ensures Matches(spec)(p)
    {
      UnambiguousKey(p, spec.name, spec.version.value, spec.source.value);
    }
    ExactAgrees(ps, ix, spec);
  }

  /** The indexes answer a spec like a scan, whatever the lockfile holds, iff the spec is unambiguous. */
  lemma ResolutionExact(spec: Spec)
    ensures (forall ps, ix :: Indexed(ps, ix) && Referenced(ps) ==> Agrees(ps, ix, spec)) <==> IsUnambiguous(spec)
  {
    if IsUnambiguous(spec) {
      forall ps, ix | Indexed(ps, ix) && Referenced(ps) ensures Agrees(ps, ix, spec) {
        if spec.version.None? || spec.source.None? {
          IndexesAgree(ps, ix, spec);
        } else {
          UnambiguousAgrees(ps, ix, spec);
        }
      }
    } else {
      var p := Confused(spec.name, spec.version.value, spec.source.value);
      var ix := OneIndexed(p);
      ConfusedIsFound(spec, ix);
      assert p.reference in ResolveSpec(ix, spec) && p.reference !in Scan([p], Matches(spec));
    }
  }

  // ------------------------------------------------------- dependency strings

  function SplitSource(text: string): (string, Option<string>) {
    match LastText(text, " (", |text|)
    case Some(k) =>
      var rest := text[k + 2..];
      (Trim(text[..k]), if rest != "" && rest[|rest| - 1] == ')' then Some(Trim(rest[..|rest| - 1])) else None)
    case None => (text, None)
  }

  function ParseSpec(dependency: string): Option<Spec> {
    var trimmed := Trim(dependency);
    if trimmed == "" then None
    else
      var (id, source) := SplitSource(trimmed);
      var words := Words(id);
      if words == [] then None
      else Some(Spec(words[0], if |words| > 1 then Some(words[1]) else None, source))
  }

  function PrintSpec(spec: Spec): string {
    spec.name
    + (if spec.version.Some? then " " + spec.version.value else "")
    + (if spec.source.Some? then " (" + spec.source.value + ")" else "")
  }

  predicate Word(s: string) {
    s != "" && NoWhitespace(s)
  }

  /** The three forms that occur in lockfiles. */
  predicate WellFormed(spec: Spec) {
    && Word(spec.name)
    && (spec.version.Some? ==> Word(spec.version.value))
    && (spec.source.Some? ==> spec.version.Some? && Word(spec.source.value))
    && (spec.version.Some? && spec.source.None? ==> spec.version.value[0] != '(')
  }

  lemma WordsOfOne(w: string)
    requires Word(w)
    ensures Words(w) == [w]
  {
    assert TrimStart(w) == w;
    WholeWord(w, "");
    assert w + "" == w && w[..|w|] == w && w[|w|..] == "";
  }

  lemma {:induction false} WholeWord(w: string, rest: string)
    requires NoWhitespace(w) && (rest == "" || IsWhitespace(rest[0]))
    ensures WordLength(w + rest) == |w|
  {
    if w == "" {
      assert w + rest == rest;
    } else {
      assert (w + rest)[1..] == w[1..] + rest;
      WholeWord(w[1..], rest);
    }
  }

  lemma WordsOfTwo(a: string, b: string)
    requires Word(a) && Word(b)
    ensures Words(a + " " + b) == [a, b]
  {
    var s := a + " " + b;
    assert s == a + (" " + b) && TrimStart(s) == s;
    WholeWord(a, " " + b);
    assert s[..|a|] == a && s[|a|..] == " " + b;
    assert (" " + b)[1..] == b && TrimStart(" " + b) == TrimStart(b) == b;
    WordsOfOne(b);
    assert Words(" " + b) == Words(b);
  }

  lemma LastSourceMark(pre: string, post: string)
    requires ' ' !in post
    ensures LastText(pre + " (" + post, " (", |pre + " (" + post|) == Some(|pre|)
  {
    var s := pre + " (" + post;
    assert OccursAt(s, " (", |pre|) by { assert s[|pre|..|pre| + 2] == " ("; }
    forall k | |pre| < k < |s| ensures !OccursAt(s, " (", k) {
      assert s[k] != ' ';
      assert k + 2 <= |s| ==> s[k..k + 2][0] == s[k];
    }
  }

  lemma NoSourceMark(name: string, rest: string)
    requires NoWhitespace(name) && NoWhitespace(rest) && (rest != "" ==> rest[0] != '(')
    ensures LastText(name, " (", |name|) == None
    ensures LastText(name + " " + rest, " (", |name + " " + rest|) == None
  {
    var s := name + " " + rest;
    forall k | 0 <= k < |s| ensures !OccursAt(s, " (", k) {
      assert k + 2 <= |s| ==> s[k..k + 2] == [s[k], s[k + 1]];
    }
    forall k | 0 <= k < |name| ensures !OccursAt(name, " (", k) {
      assert k + 2 <= |name| ==> name[k..k + 2][0] == name[k];
    }
  }

  lemma SplitPrintedSource(id: string, source: string)
    requires id != "" && !IsWhitespace(id[0]) && !IsWhitespace(id[|id| - 1]) && Word(source)
    ensures SplitSource(id + " (" + source + ")") == (id, Some(source))
  {
    var text, rest := id + " (" + source + ")", source + ")";
    assert text == id + " (" + rest;
    LastSourceMark(id, rest);
    assert text[..|id|] == id && text[|id| + 2..] == rest && rest[..|rest| - 1] == source;
    TrimNothing(id);
    TrimNothing(source);
  }

  lemma ParseParts(text: string, id: string, words: seq<string>, source: Option<string>)
    requires text != "" && Trim(text) == text && SplitSource(text) == (id, source) && Words(id) == words && words != []
    ensures ParseSpec(text) == Some(Spec(words[0], if |words| > 1 then Some(words[1]) else None, source))
  {
  }

  lemma ParsePrintedName(name: string)
    requires Word(name)
    ensures ParseSpec(name) == Some(Spec(name, None, None))
  {
    TrimNothing(name);
    NoSourceMark(name, "");
    WordsOfOne(name);
    ParseParts(name, name, [name], None);
  }

  lemma ParsePrintedVersion(name: string, version: string)
    requires Word(name) && Word(version) && version[0] != '('
    ensures ParseSpec(name + " " + version) == Some(Spec(name, Some(version), None))
  {
    var id := name + " " + version;
    TrimNothing(id);
    NoSourceMark(name, version);
    WordsOfTwo(name, version);
    ParseParts(id, id, [name, version], None);
  }

  lemma ParsePrintedSource(name: string, version: string, source: string)
    requires Word(name) && Word(version) && Word(source)
    ensures ParseSpec(name + " " + version + " (" + source + ")") == Some(Spec(name, Some(version), Some(source)))
  {
    var id := name + " " + version;
    var text := id + " (" + source + ")";
    assert id[0] == name[0] && id[|id| - 1] == version[|version| - 1];
    assert text[0] == name[0] && text[|text| - 1] == ')';
    TrimNothing(text);
    SplitPrintedSource(id, source);
    WordsOfTwo(name, version);
    ParseParts(text, id, [name, version], Some(source));
  }

  /** Parsing a printed dependency returns its parts. */
  lemma ParsePrintedSpec(spec: Spec)
    requires WellFormed(spec)
    ensures ParseSpec(PrintSpec(spec)) == Some(spec)
  {
    if spec.version.None? {
      assert PrintSpec(spec) == spec.name;
      ParsePrintedName(spec.name);
    } else if spec.source.None? {
      assert PrintSpec(spec) == spec.name + " " + spec.version.value;
      ParsePrintedVersion(spec.name, spec.version.value);
    } else {
      assert PrintSpec(spec) == spec.name + " " + spec.version.value + " (" + spec.source.value + ")";
      ParsePrintedSource(spec.name, spec.version.value, spec.source.value);
    }
  }
}
