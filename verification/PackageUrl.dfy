/** Reading package URLs, the inverse of printing them. */
module PackageUrl {
  import opened Wrappers
  import opened Text
  import opened Coordinates
  import opened PercentEncoding
  import opened Utf8

  function ParseEcosystem(s: string): Option<Ecosystem> {
    if s == "npm" then Some(Npm)
    else if s == "pypi" then Some(Pypi)
    else if s == "cargo" then Some(Cargo)
    else if s == "maven" then Some(Maven)
    else if s == "docker-oci" then Some(DockerOci)
    else if s == "generic-http" then Some(GenericHttp)
    else if s == "githubactions" then Some(GithubActions)
    else if s == "vscode-extension" then Some(VscodeExtension)
    else None
  }

  predicate IsPackageEcosystem(e: Ecosystem) {
    e == Npm || e == Pypi || e == Cargo || e == Maven
  }

  /** Cuts off the fragment, then the qualifiers. */
  function MainPart(remainder: string): string {
    Before(Before(remainder, '#'), '?')
  }

  function SplitVersion(main: string): (string, Option<string>) {
    match RSplitOnce(main, '@')
    case Some((path, version)) => if Trim(version) != "" then (path, Some(version)) else (main, None)
    case None => (main, None)
  }

  function NonEmpty(parts: seq<string>): seq<string> {
    if parts == [] then [] else (if parts[0] == "" then [] else [parts[0]]) + NonEmpty(parts[1..])
  }

  function DecodeAll(parts: seq<string>): (r: Option<seq<string>>)
    ensures r.Some? ==> |r.value| == |parts|
  {
    if parts == [] then Some([])
    else
      var head :- PercentDecode(parts[0]);
      var rest :- DecodeAll(parts[1..]);
      Some([head] + rest)
  }

  function DecodeVersion(version: Option<string>): Option<Option<string>> {
    match version
    case None => Some(None)
    case Some(text) =>
      var v :- PercentDecode(text);
      Some(Some(v))
  }

  function Namespace(e: Ecosystem, segments: seq<string>): Option<string> {
    if segments == [] then None
    else
      var joined := Join(segments, '/');
      Some(if e == Npm then TrimStartMatches(joined, Is('@')) else joined)
  }

  /** Reads what follows `pkg:type/`, without qualifiers and fragment. */
  function ParseMain(e: Ecosystem, main: string): Option<Coordinate> {
    var (path, versionText) := SplitVersion(main);
    var version :- DecodeVersion(versionText);
    var segments :- DecodeAll(NonEmpty(Split(path, '/')));
    Assemble(e, segments, version)
  }

  function Assemble(e: Ecosystem, segments: seq<string>, version: Option<string>): Option<Coordinate> {
    if segments == [] then None
    else
      var name := Trim(segments[|segments| - 1]);
      if name == "" then None
      else Some(Coordinate(e, name, version, Namespace(e, segments[..|segments| - 1])))
  }

  function ParseRaw(raw: string): Option<Coordinate> {
    var (packageType, remainder) :- SplitOnce(raw, '/');
    var e :- ParseEcosystem(packageType);
    if IsPackageEcosystem(e) then ParseMain(e, MainPart(remainder)) else None
  }

  function ParsePurl(purl: string): Option<Coordinate> {
    var raw :- StripPrefix(Trim(purl), "pkg:");
    ParseRaw(raw)
  }

  // ---------------------------------------------------------- qualifiers and fragment

  predicate IsSuffix(s: string) {
    s == "" || s[0] == '?' || s[0] == '#'
  }

  lemma BeforeCuts(a: string, b: string, c: char)
    requires c !in a
    ensures Before(a + b, c) == if c in b then a + Before(b, c) else a + b
  {
    if c in b {
      var i := Find(b, c).value;
      assert a + b == (a + b[..i]) + [c] + b[i + 1..];
      FindFirst(a + b[..i], c, b[i + 1..]);
      assert (a + b)[..|a| + i] == a + b[..i];
    }
  }

  lemma BeforeKeeps(a: string, b: string, c: char)
    requires c in a
    ensures Before(a + b, c) == Before(a, c)
  {
    var i := Find(a, c).value;
    assert a + b == a[..i] + [c] + (a[i + 1..] + b);
    FindFirst(a[..i], c, a[i + 1..] + b);
    assert (a + b)[..i] == a[..i];
  }

  lemma QualifiersCut(main: string, qualifiers: string)
    requires qualifiers == "" || qualifiers[0] == '?'
    ensures Before(main + qualifiers, '?') == Before(main, '?')
  {
    if '?' in main {
      BeforeKeeps(main, qualifiers, '?');
    } else {
      BeforeCuts(main, qualifiers, '?');
      assert main + "" == main;
      assert qualifiers != "" ==> Before(qualifiers, '?') == "";
    }
  }

  /** What is cut off is cut off again, whether or not the text has qualifiers or a fragment already. */
  lemma MainPartCuts(main: string, suffix: string)
    requires IsSuffix(suffix)
    ensures MainPart(main + suffix) == MainPart(main)
  {
    if '#' in main {
      BeforeKeeps(main, suffix, '#');
    } else {
      BeforeCuts(main, suffix, '#');
      assert Before(main, '#') == main;
      var qualifiers := if '#' in suffix then Before(suffix, '#') else suffix;
      assert qualifiers == "" || qualifiers[0] == '?';
      QualifiersCut(main, qualifiers);
    }
  }

  lemma {:induction false} TrimEndSuffix(main: string, suffix: string) returns (rest: string)
    requires main != "" && !IsWhitespace(main[|main| - 1]) && IsSuffix(suffix)
    ensures TrimEnd(main + suffix) == main + rest && IsSuffix(rest)
    decreases |suffix|
  {
    var s := main + suffix;
    if suffix != "" && IsWhitespace(suffix[|suffix| - 1]) {
      assert s[..|s| - 1] == main + suffix[..|suffix| - 1];
      rest := TrimEndSuffix(main, suffix[..|suffix| - 1]);
    } else {
      rest := suffix;
      assert s[|s| - 1] == if suffix == "" then main[|main| - 1] else suffix[|suffix| - 1];
    }
  }

  lemma {:induction false} TrimStartPrefix(main: string, suffix: string)
    requires main != "" && !IsWhitespace(main[|main| - 1])
    ensures TrimStart(main + suffix) == TrimStart(main) + suffix
    ensures TrimStart(main) != "" && TrimStart(main)[|TrimStart(main)| - 1] == main[|main| - 1]
    decreases |main|
  {
    if IsWhitespace(main[0]) {
      assert (main + suffix)[1..] == main[1..] + suffix;
      TrimStartPrefix(main[1..], suffix);
    }
  }

  lemma SuffixBehindType(raw: string, kind: string, remainder: string, suffix: string)
    requires raw == kind + ['/'] + remainder && raw + suffix == kind + ['/'] + (remainder + suffix)
    requires '/' !in kind && IsSuffix(suffix)
    ensures ParseRaw(raw + suffix) == ParseRaw(raw)
  {
    SplitOnceAt(kind, '/', remainder);
    SplitOnceAt(kind, '/', remainder + suffix);
    MainPartCuts(remainder, suffix);
  }

  lemma SuffixInType(raw: string, suffix: string)
    requires '/' !in raw && '/' in suffix && IsSuffix(suffix)
    ensures ParseRaw(raw + suffix) == None
  {
    var i := Find(suffix, '/').value;
    var kind := raw + suffix[..i];
    assert raw + suffix == kind + ['/'] + suffix[i + 1..];
    SplitOnceAt(kind, '/', suffix[i + 1..]);
    assert kind[|raw|] == suffix[0];
    NoSuchEcosystem(kind, suffix[0]);
  }

  lemma CutAt(raw: string, i: nat, suffix: string)
    requires i < |raw|
    ensures raw == raw[..i] + [raw[i]] + raw[i + 1..]
    ensures raw + suffix == raw[..i] + [raw[i]] + (raw[i + 1..] + suffix)
  {
  }

  lemma SuffixWithSlash(raw: string, i: nat, suffix: string)
    requires IsSuffix(suffix)
    requires i < |raw| && raw[i] == '/' && '/' !in raw[..i]
    ensures ParseRaw(raw + suffix) == ParseRaw(raw)
  {
    CutAt(raw, i, suffix);
    SuffixBehindType(raw, raw[..i], raw[i + 1..], suffix);
  }

  lemma SuffixOfRaw(raw: string, suffix: string)
    requires IsSuffix(suffix)
    ensures ParseRaw(raw + suffix) == ParseRaw(raw)
  {
    if '/' in raw {
      SuffixWithSlash(raw, Find(raw, '/').value, suffix);
    } else if '/' in suffix {
      SuffixInType(raw, suffix);
      NoTypeAtAll(raw, "");
    } else {
      NoTypeAtAll(raw, suffix);
    }
  }

  lemma NoTypeAtAll(raw: string, suffix: string)
    requires '/' !in raw && '/' !in suffix
    ensures ParseRaw(raw + suffix) == None && ParseRaw(raw) == None
  {
    assert '/' !in raw + suffix;
  }

  lemma NoSuchEcosystem(kind: string, c: char)
    requires c in kind && (c == '?' || c == '#')
    ensures ParseEcosystem(kind) == None
  {
    assert c !in "npm" && c !in "pypi" && c !in "cargo" && c !in "maven" && c !in "docker-oci";
    assert c !in "generic-http" && c !in "githubactions" && c !in "vscode-extension";
  }

  /** Qualifiers and a fragment never change the coordinate that is read. */
  lemma SuffixIgnored(purl: string, suffix: string)
    requires purl != "" && !IsWhitespace(purl[|purl| - 1]) && IsSuffix(suffix)
    ensures ParsePurl(purl + suffix) == ParsePurl(purl)
  {
    TrimStartPrefix(purl, suffix);
    var t := TrimStart(purl);
    var rest := TrimEndSuffix(t, suffix);
    assert Trim(purl + suffix) == t + rest && Trim(purl) == t;
    if "pkg:" <= t {
      assert (t + rest)[..4] == t[..4] && (t + rest)[4..] == t[4..] + rest;
      SuffixOfRaw(t[4..], rest);
    } else {
      NotPrefixed(t, rest);
    }
  }

  lemma NotPrefixed(t: string, rest: string)
    requires !("pkg:" <= t) && IsSuffix(rest)
    ensures !("pkg:" <= t + rest)
  {
    assert |t| < 4 && rest != "" ==> (t + rest)[|t|] == rest[0];
    assert |t| >= 4 ==> (t + rest)[..4] == t[..4];
  }

  // ------------------------------------------------------------------ round trip

  /** Characters with a meaning of their own in a package URL. */
  predicate IsReserved(c: char) {
    c == '/' || c == '@' || c == '?' || c == '#' || c == '%'
  }

  predicate Unreserved(s: string) {
    s != "" && !IsWhitespace(s[0]) && !IsWhitespace(s[|s| - 1]) && forall i :: 0 <= i < |s| ==> !IsReserved(s[i])
  }

  /** A coordinate of one of the four ecosystems free of reserved characters; the namespace may have several segments. */
  predicate Printable(c: Coordinate) {
    && IsPackageEcosystem(c.ecosystem)
    && Unreserved(c.name)
    && (c.version.Some? ==> Unreserved(c.version.value))
    && (c.namespace.Some? ==> forall s :: s in Split(c.namespace.value, '/') ==> Unreserved(s))
  }

  function Segments(c: Coordinate): seq<string> {
    (if c.namespace.Some? then Split(c.namespace.value, '/') else []) + [c.name]
  }

  lemma PathIsJoin(c: Coordinate)
    requires Printable(c)
    ensures PackagePath(c) == Join(Segments(c), '/')
    ensures forall s :: s in Segments(c) ==> Unreserved(s)
  {
    if c.namespace.Some? {
      var ns := c.namespace.value;
      JoinSplit(ns, '/');
      JoinAppend(Split(ns, '/'), [c.name], '/');
      assert ns != "" by { assert Split("", '/') == [""]; assert "" in [""]; }
    } else {
      assert [] + [c.name] == [c.name];
    }
  }

  lemma {:induction false} NonEmptyAll(parts: seq<string>)
    requires forall s :: s in parts ==> s != ""
    ensures NonEmpty(parts) == parts
  {
    if parts != [] {
      assert parts[0] in parts;
      assert forall s :: s in parts[1..] ==> s in parts;
      NonEmptyAll(parts[1..]);
    }
  }

  lemma {:induction false} DecodePlain(parts: seq<string>)
    requires forall s :: s in parts ==> '%' !in s
    ensures DecodeAll(parts) == Some(parts)
  {
    if parts != [] {
      assert parts[0] in parts;
      PlainText(parts[0]);
      assert forall s :: s in parts[1..] ==> s in parts;
      DecodePlain(parts[1..]);
      assert parts == [parts[0]] + parts[1..];
    }
  }

  lemma NoReserved(s: string, c: char)
    requires Unreserved(s) && IsReserved(c)
    ensures c !in s
  {
  }

  lemma {:induction false} JoinWithout(parts: seq<string>, sep: char, c: char)
    requires c != sep && forall s :: s in parts ==> c !in s
    ensures c !in Join(parts, sep)
  {
    if |parts| > 1 {
      assert parts[0] in parts && forall s :: s in parts[1..] ==> s in parts;
      JoinWithout(parts[1..], sep, c);
    } else if |parts| == 1 {
      assert parts[0] in parts;
    }
  }

  lemma PathShape(segments: seq<string>)
    requires segments != [] && forall s :: s in segments ==> Unreserved(s)
    ensures var path := Join(segments, '/');
            && '@' !in path && '?' !in path && '#' !in path
            && NonEmpty(Split(path, '/')) == segments && DecodeAll(segments) == Some(segments)
  {
    forall s | s in segments ensures '@' !in s && '?' !in s && '#' !in s && '/' !in s && '%' !in s && s != "" {}
    JoinWithout(segments, '/', '@');
    JoinWithout(segments, '/', '?');
    JoinWithout(segments, '/', '#');
    SplitJoin(segments, '/');
    NonEmptyAll(segments);
    DecodePlain(segments);
  }

  function MainText(path: string, version: Option<string>): string {
    if version.Some? then path + "@" + version.value else path
  }

  lemma VersionBack(path: string, version: Option<string>)
    requires '@' !in path && (version.Some? ==> Unreserved(version.value))
    ensures SplitVersion(MainText(path, version)) == (path, version) && DecodeVersion(version) == Some(version)
  {
    if version.Some? {
      var v := version.value;
      assert path + "@" + v == path + ['@'] + v;
      NoReserved(v, '@');
      RSplitOnceAt(path, '@', v);
      TrimNothing(v);
      NoReserved(v, '%');
      PlainText(v);
    }
  }

  lemma ParseParts(e: Ecosystem, main: string, path: string, texts: seq<string>, segments: seq<string>,
                   versionText: Option<string>, version: Option<string>)
    requires SplitVersion(main) == (path, versionText) && DecodeVersion(versionText) == Some(version)
    requires NonEmpty(Split(path, '/')) == texts && DecodeAll(texts) == Some(segments)
    ensures ParseMain(e, main) == Assemble(e, segments, version)
  {
  }

  lemma ParsePrintedMain(e: Ecosystem, segments: seq<string>, version: Option<string>)
    requires segments != [] && forall s :: s in segments ==> Unreserved(s)
    requires version.Some? ==> Unreserved(version.value)
    ensures ParseMain(e, MainText(Join(segments, '/'), version)) == Assemble(e, segments, version)
  {
    PathShape(segments);
    VersionBack(Join(segments, '/'), version);
    ParseParts(e, MainText(Join(segments, '/'), version), Join(segments, '/'), segments, segments, version, version);
  }

  lemma AssembleBack(c: Coordinate)
    requires Printable(c)
    ensures Assemble(c.ecosystem, Segments(c), c.version) == Some(c)
  {
    var segments := Segments(c);
    assert segments[|segments| - 1] == c.name;
    TrimNothing(c.name);
    NamespaceBack(c);
  }

  lemma NamespaceBack(c: Coordinate)
    requires Printable(c)
    ensures var segments := Segments(c); Namespace(c.ecosystem, segments[..|segments| - 1]) == c.namespace
  {
    var segments := Segments(c);
    if c.namespace.Some? {
      var ns := c.namespace.value;
      assert segments[..|segments| - 1] == Split(ns, '/');
      JoinSplit(ns, '/');
      JoinWithout(Split(ns, '/'), '/', '@');
    } else {
      assert segments[..|segments| - 1] == [];
    }
  }

  lemma EcosystemBack(e: Ecosystem)
    ensures ParseEcosystem(EcosystemName(e)) == Some(e) && '/' !in EcosystemName(e)
  {
  }

  lemma PurlShape(c: Coordinate)
    ensures Purl(c) == "pkg:" + (EcosystemName(c.ecosystem) + ['/'] + MainText(PackagePath(c), c.version))
  {
  }

  lemma ParseRawPrinted(e: Ecosystem, main: string)
    requires IsPackageEcosystem(e) && '?' !in main && '#' !in main
    ensures ParseRaw(EcosystemName(e) + ['/'] + main) == ParseMain(e, main)
  {
    EcosystemBack(e);
    SplitOnceAt(EcosystemName(e), '/', main);
  }

  lemma ParsePrefixed(purl: string, raw: string)
    requires purl == "pkg:" + raw && raw != "" && !IsWhitespace(raw[|raw| - 1])
    ensures ParsePurl(purl) == ParseRaw(raw)
  {
    assert purl[0] == 'p' && purl[|purl| - 1] == raw[|raw| - 1];
    TrimNothing(purl);
    assert purl[..4] == "pkg:" && purl[4..] == raw;
  }

  /** Reading a printed coordinate returns it. */
  lemma ParsePrinted(c: Coordinate)
    requires Printable(c)
    ensures ParsePurl(Purl(c)) == Some(c)
  {
    var segments, main := Segments(c), MainText(PackagePath(c), c.version);
    var raw := EcosystemName(c.ecosystem) + ['/'] + main;
    PathIsJoin(c);
    PurlShape(c);
    MainEnds(c);
    assert raw[|raw| - 1] == main[|main| - 1];
    ParsePrefixed(Purl(c), raw);
    ParseRawPrinted(c.ecosystem, main);
    ParsePrintedMain(c.ecosystem, segments, c.version);
    AssembleBack(c);
  }

  lemma MainEnds(c: Coordinate)
    requires Printable(c)
    ensures var main := MainText(PackagePath(c), c.version);
            main != "" && !IsWhitespace(main[|main| - 1]) && '?' !in main && '#' !in main
  {
    var main := MainText(PackagePath(c), c.version);
    PathIsJoin(c);
    PathShape(Segments(c));
    if c.version.Some? {
      NoReserved(c.version.value, '?');
      NoReserved(c.version.value, '#');
      assert main[|main| - 1] == c.version.value[|c.version.value| - 1];
    } else {
      assert main[|main| - 1] == c.name[|c.name| - 1];
    }
  }

  /** Two printable coordinates with the same package URL are the same. */
  lemma PurlInjective(c: Coordinate, d: Coordinate)
    requires Printable(c) && Printable(d) && Purl(c) == Purl(d)
    ensures c == d
  {
    ParsePrinted(c);
    ParsePrinted(d);
  }

  // ---------------------------------------------------------- percent-encoded URLs

  /** A text between the separators of a package URL: none of them, no whitespace, and not empty. */
  predicate IsPiece(s: string) {
    s != "" && NoWhitespace(s) && '/' !in s && '@' !in s && '?' !in s && '#' !in s
  }

  /** `enc` is a percent-encoding of the UTF-8 form of `raw`. */
  ghost predicate EncodesText(enc: string, raw: string) {
    Encodes(Encode(enc), Encode(raw), true)
  }

  ghost predicate EncodesAll(texts: seq<string>, segments: seq<string>) {
    |texts| == |segments| && forall i :: 0 <= i < |texts| ==> IsPiece(texts[i]) && EncodesText(texts[i], segments[i])
  }

  lemma {:induction false} DecodeEncodedAll(texts: seq<string>, segments: seq<string>)
    requires EncodesAll(texts, segments)
    ensures DecodeAll(texts) == Some(segments)
    decreases |texts|
  {
    if texts != [] {
      PercentDecodeInverts(texts[0], segments[0]);
      assert EncodesAll(texts[1..], segments[1..]) by {
        forall i | 0 <= i < |texts| - 1 ensures IsPiece(texts[1..][i]) && EncodesText(texts[1..][i], segments[1..][i]) {
          assert texts[1..][i] == texts[i + 1] && segments[1..][i] == segments[i + 1];
        }
      }
      DecodeEncodedAll(texts[1..], segments[1..]);
      assert segments == [segments[0]] + segments[1..];
    }
  }

  lemma PiecesPath(texts: seq<string>)
    requires texts != [] && forall i :: 0 <= i < |texts| ==> IsPiece(texts[i])
    ensures var path := Join(texts, '/');
            && '@' !in path && '?' !in path && '#' !in path && NonEmpty(Split(path, '/')) == texts
            && path != "" && !IsWhitespace(path[|path| - 1])
  {
    assert forall s :: s in texts ==> IsPiece(s);
    JoinWithout(texts, '/', '@');
    JoinWithout(texts, '/', '?');
    JoinWithout(texts, '/', '#');
    SplitJoin(texts, '/');
    NonEmptyAll(texts);
    JoinEnds(texts);
  }

  lemma {:induction false} JoinEnds(texts: seq<string>)
    requires texts != [] && forall i :: 0 <= i < |texts| ==> IsPiece(texts[i])
    ensures var path := Join(texts, '/'); path != "" && !IsWhitespace(path[|path| - 1])
  {
    if |texts| > 1 { JoinEnds(texts[1..]); }
  }

  lemma EncodedVersion(path: string, text: Option<string>, version: Option<string>)
    requires '@' !in path && (text.Some? <==> version.Some?)
    requires text.Some? ==> IsPiece(text.value) && EncodesText(text.value, version.value)
    ensures SplitVersion(MainText(path, text)) == (path, text) && DecodeVersion(text) == Some(version)
  {
    if text.Some? {
      var v := text.value;
      assert path + "@" + v == path + ['@'] + v;
      RSplitOnceAt(path, '@', v);
      TrimNothing(v);
      PercentDecodeInverts(v, version.value);
    }
  }

  lemma MainOfPieces(path: string, text: Option<string>)
    requires path != "" && !IsWhitespace(path[|path| - 1]) && '?' !in path && '#' !in path
    requires text.Some? ==> IsPiece(text.value)
    ensures var main := MainText(path, text);
            main != "" && !IsWhitespace(main[|main| - 1]) && '?' !in main && '#' !in main
  {
    var main := MainText(path, text);
    if text.Some? {
      assert '?' !in "@" && '#' !in "@";
      assert main[|main| - 1] == text.value[|text.value| - 1];
    }
  }

  lemma ParseEncodedMain(e: Ecosystem, texts: seq<string>, segments: seq<string>, text: Option<string>, version: Option<string>)
    requires texts != [] && EncodesAll(texts, segments) && (text.Some? <==> version.Some?)
    requires text.Some? ==> IsPiece(text.value) && EncodesText(text.value, version.value)
    ensures ParseMain(e, MainText(Join(texts, '/'), text)) == Assemble(e, segments, version)
  {
    var path := Join(texts, '/');
    PiecesPath(texts);
    EncodedVersion(path, text, version);
    DecodeEncodedAll(texts, segments);
    ParseParts(e, MainText(path, text), path, texts, segments, text, version);
  }

  predicate IsTypeOf(kind: string, e: Ecosystem) {
    || (e == Npm && kind == "npm") || (e == Pypi && kind == "pypi")
    || (e == Cargo && kind == "cargo") || (e == Maven && kind == "maven")
  }

  function EncodedPurl(kind: string, texts: seq<string>, text: Option<string>): string {
    "pkg:" + (kind + ['/'] + (Join(texts, '/') + if text.Some? then "@" + text.value else ""))
  }

  lemma ParseEncodedParts(e: Ecosystem, kind: string, texts: seq<string>, segments: seq<string>,
                          text: Option<string>, version: Option<string>, main: string)
    requires IsTypeOf(kind, e) && texts != [] && EncodesAll(texts, segments) && (text.Some? <==> version.Some?)
    requires text.Some? ==> IsPiece(text.value) && EncodesText(text.value, version.value)
    requires main == MainText(Join(texts, '/'), text)
    ensures ParsePurl("pkg:" + (kind + ['/'] + main)) == Assemble(e, segments, version)
  {
    PiecesPath(texts);
    MainOfPieces(Join(texts, '/'), text);
    var raw := kind + ['/'] + main;
    assert raw[|raw| - 1] == main[|main| - 1];
    ParsePrefixed("pkg:" + raw, raw);
    assert kind == EcosystemName(e);
    ParseRawPrinted(e, main);
    ParseEncodedMain(e, texts, segments, text, version);
  }

  lemma Assembled(e: Ecosystem, segments: seq<string>, version: Option<string>, front: string)
    requires segments != [] && Trim(segments[|segments| - 1]) != "" && front == Join(segments[..|segments| - 1], '/')
    ensures Assemble(e, segments, version)
         == Some(Coordinate(
              e, Trim(segments[|segments| - 1]), version,
              if |segments| == 1 then None
              else if e == Npm then Some(TrimStartMatches(front, Is('@')))
              else Some(front)))
  {
  }

  /**
   Whatever the name, version and namespace segments hold, a URL in which each is percent-encoded is
   read back to them; the name loses outer whitespace, and an npm namespace the at signs in front.
   */
  lemma ParseEncoded(e: Ecosystem, kind: string, texts: seq<string>, segments: seq<string>,
                     text: Option<string>, version: Option<string>, front: string)
    requires IsTypeOf(kind, e) && texts != [] && EncodesAll(texts, segments) && (text.Some? <==> version.Some?)
    requires text.Some? ==> IsPiece(text.value) && EncodesText(text.value, version.value)
    requires Trim(segments[|segments| - 1]) != "" && front == Join(segments[..|segments| - 1], '/')
    ensures ParsePurl(EncodedPurl(kind, texts, text))
         == Some(Coordinate(
              e, Trim(segments[|segments| - 1]), version,
              if |segments| == 1 then None
              else if e == Npm then Some(TrimStartMatches(front, Is('@')))
              else Some(front)))
  {
    var path := Join(texts, '/');
    var main := MainText(path, text);
    assert main == path + if text.Some? then "@" + text.value else "" by {
      if text.Some? { Reassociate(path, "@", text.value); } else { assert path + "" == path; }
    }
    ParseEncodedParts(e, kind, texts, segments, text, version, main);
    Assembled(e, segments, version, front);
  }

  /** A scope written as an encoded segment `@scope` becomes the namespace `scope`. */
  lemma ParseEncodedScope(scopeText: string, nameText: string, scope: string, name: string, text: string, version: string)
    requires IsPiece(scopeText) && IsPiece(nameText) && IsPiece(text)
    requires EncodesText(scopeText, "@" + scope) && EncodesText(nameText, name) && EncodesText(text, version)
    requires scope != "" && scope[0] != '@' && name != "" && !IsWhitespace(name[0]) && !IsWhitespace(name[|name| - 1])
    ensures ParsePurl("pkg:npm/" + scopeText + "/" + nameText + "@" + text)
         == Some(Coordinate(Npm, name, Some(version), Some(scope)))
  {
    var texts, segments := [scopeText, nameText], ["@" + scope, name];
    TrimNothing(name);
    assert segments[..1] == ["@" + scope];
    assert ("@" + scope)[1..] == scope;
    ParseEncoded(Npm, "npm", texts, segments, Some(text), Some(version), "@" + scope);
    assert Join(texts, '/') == scopeText + ['/'] + nameText by { assert texts[1..] == [nameText]; }
    ScopeText(scopeText, nameText, text);
  }

  lemma ScopeText(a: string, b: string, v: string)
    ensures "pkg:npm/" + a + "/" + b + "@" + v == "pkg:" + ("npm" + ['/'] + ((a + ['/'] + b) + ("@" + v)))
  {
    assert "pkg:npm/" == "pkg:" + ("npm" + ['/']);
  }

  lemma PackageTypes(kind: string)
    ensures ParseEcosystem(kind).Some? && IsPackageEcosystem(ParseEcosystem(kind).value) ==>
              IsTypeOf(kind, ParseEcosystem(kind).value)
  {
  }

  /** Only the four package types are read. */
  lemma OtherTypesRefused(kind: string, rest: string)
    requires '/' !in kind && forall e :: !IsTypeOf(kind, e)
    ensures ParseRaw(kind + ['/'] + rest) == None
  {
    SplitOnceAt(kind, '/', rest);
    PackageTypes(kind);
  }

  /** A blank version is not split off: the at sign stays in the path. */
  lemma BlankVersion(path: string, blank: string)
    requires '@' !in blank && Trim(blank) == ""
    ensures SplitVersion(path + ['@'] + blank) == (path + ['@'] + blank, None)
  {
    RSplitOnceAt(path, '@', blank);
  }

  lemma {:induction false} NonEmptyAppend(a: seq<string>, b: seq<string>)
    ensures NonEmpty(a + b) == NonEmpty(a) + NonEmpty(b)
    decreases |a|
  {
    if a == [] {
      assert a + b == b;
    } else {
      assert (a + b)[1..] == a[1..] + b;
      NonEmptyAppend(a[1..], b);
    }
  }

  /** Empty segments are skipped: doubled slashes in a path count once. */
  lemma DoubledSlashes(x: string, y: string)
    ensures NonEmpty(Split(x + ['/'] + (['/'] + y), '/')) == NonEmpty(Split(x + ['/'] + y, '/'))
  {
    SplitAppend(x, ['/'] + y, '/');
    SplitAppend("", y, '/');
    SplitAppend(x, y, '/');
    assert "" + ['/'] + y == ['/'] + y;
    assert Split("", '/') == [""] && NonEmpty([""]) == [] by { assert [""][1..] == []; }
    NonEmptyAppend(Split(x, '/'), Split(['/'] + y, '/'));
    NonEmptyAppend([""], Split(y, '/'));
    NonEmptyAppend(Split(x, '/'), Split(y, '/'));
    assert [] + NonEmpty(Split(y, '/')) == NonEmpty(Split(y, '/'));
  }
}
