/** Container image references: `namespace/name[:tag][@digest]`. */
module DockerReference {
  import opened Wrappers
  import opened Text

  datatype ImageReference = ImageReference(
    namespace: Option<string>, name: string, tag: Option<string>, digest: Option<string>)

  predicate IsLowerHex(c: char) {
    '0' <= c <= '9' || 'a' <= c <= 'f'
  }

  predicate IsDigest(s: string) {
    "sha256:" <= s && |s| == 7 + 64 && forall i :: 7 <= i < |s| ==> IsLowerHex(s[i])
  }

  /** The part before the digest, and the digest. */
  function SplitDigest(value: string): Result<(string, Option<string>)> {
    match SplitOnce(value, '@')
    case None => Ok((value, None))
    case Some((reference, digest)) =>
      var d := Trim(digest);
      if IsDigest(d) then Ok((Trim(reference), Some(d))) else Err
  }

  /** A colon counts as the start of a tag only behind the last slash. */
  function SplitTag(reference: string, tagRequired: bool): Result<(string, Option<string>)> {
    var slash, colon := FindLast(reference, '/'), FindLast(reference, ':');
    if colon.Some? && (slash.Some? ==> colon.value > slash.value) then
      var tag := Trim(reference[colon.value + 1..]);
      if tag == "" then Err else Ok((Trim(reference[..colon.value]), Some(tag)))
    else if tagRequired then Err
    else Ok((Trim(reference), None))
  }

  function NonBlank(parts: seq<string>): seq<string> {
    if parts == [] then [] else (if Trim(parts[0]) == "" then [] else [parts[0]]) + NonBlank(parts[1..])
  }

  function SplitRepository(repository: string): Result<(Option<string>, string)> {
    if repository == "" || '@' in repository then Err
    else
      var segments := NonBlank(Split(repository, '/'));
      if segments == [] then Err
      else
        var front := segments[..|segments| - 1];
        Ok((if front == [] then None else Some(Join(front, '/')), segments[|segments| - 1]))
  }

  function ParseImage(text: string): Result<ImageReference> {
    var value := Trim(text);
    if value == "" then Err
    else
      var (reference, digest) :- SplitDigest(value);
      var (repository, tag) :- SplitTag(reference, digest.None?);
      var (namespace, name) :- SplitRepository(repository);
      Ok(ImageReference(namespace, name, tag, digest))
  }

  // --------------------------------------------------------------------- round trip

  function Repository(r: ImageReference): string {
    if r.namespace.Some? then r.namespace.value + "/" + r.name else r.name
  }

  function TagSuffix(r: ImageReference): string {
    if r.tag.Some? then ":" + r.tag.value else ""
  }

  function PrintImage(r: ImageReference): string {
    Repository(r) + TagSuffix(r) + if r.digest.Some? then "@" + r.digest.value else ""
  }

  predicate Word(s: string) {
    s != "" && NoWhitespace(s) && '@' !in s && '/' !in s
  }

  /** A tag or a digest is present; the namespace may hold host-port colons, name and tag may not. */
  predicate WellFormed(r: ImageReference) {
    && (r.tag.Some? || r.digest.Some?)
    && Word(r.name) && ':' !in r.name
    && (r.namespace.Some? ==> r.namespace.value != "" && forall s :: s in Split(r.namespace.value, '/') ==> Word(s))
    && (r.tag.Some? ==> Word(r.tag.value) && ':' !in r.tag.value)
    && (r.digest.Some? ==> IsDigest(r.digest.value))
  }

  predicate Clean(s: string) {
    s != "" && NoWhitespace(s) && '@' !in s
  }

  lemma DigestIsClean(d: string)
    requires IsDigest(d)
    ensures Clean(d)
  {
    forall i | 0 <= i < |d| ensures !IsWhitespace(d[i]) && d[i] != '@' {
      if i < 7 { assert d[i] == d[..7][i] == "sha256:"[i]; }
    }
  }

  lemma SplitPrintedDigest(front: string, digest: Option<string>)
    requires Clean(front) && (digest.Some? ==> IsDigest(digest.value))
    ensures SplitDigest(front + if digest.Some? then "@" + digest.value else "") == Ok((front, digest))
  {
    TrimNothing(front);
    if digest.Some? {
      DigestIsClean(digest.value);
      assert front + ("@" + digest.value) == front + ['@'] + digest.value;
      SplitOnceAt(front, '@', digest.value);
      TrimNothing(digest.value);
    } else {
      assert front + "" == front;
    }
  }

  /** A name or name and tag behind an optional namespace: colons of the namespace are not tags. */
  lemma SplitPrintedTag(ns: Option<string>, name: string, tag: Option<string>, required: bool)
    requires Word(name) && ':' !in name && (ns.Some? ==> Clean(ns.value))
    requires (tag.Some? ==> Word(tag.value) && ':' !in tag.value) && (required ==> tag.Some?)
    ensures var repository := if ns.Some? then ns.value + "/" + name else name;
            SplitTag(repository + if tag.Some? then ":" + tag.value else "", required) == Ok((repository, tag))
  {
    var repository := if ns.Some? then ns.value + "/" + name else name;
    TrimNothing(repository);
    if tag.Some? {
      var t := tag.value;
      var s := repository + [':'] + t;
      assert repository + (":" + t) == s;
      FindLastOnly(repository, ':', t);
      TrimNothing(t);
      assert s[..|repository|] == repository && s[|repository| + 1..] == t;
      LastSlashBefore(repository, t);
    } else {
      assert repository + "" == repository;
      NoTagColon(ns, name);
    }
  }

  lemma LastSlashBefore(repository: string, t: string)
    requires '/' !in t
    ensures FindLast(repository + [':'] + t, '/').Some? ==> FindLast(repository + [':'] + t, '/').value < |repository|
  {
    var s := repository + [':'] + t;
    forall k | |repository| <= k < |s| ensures s[k] != '/' {
      if k > |repository| { assert s[k] == t[k - |repository| - 1]; }
    }
  }

  /** A host-port colon stands before the last slash. */
  lemma NoTagColon(ns: Option<string>, name: string)
    requires ':' !in name && '/' !in name
    ensures var repository := if ns.Some? then ns.value + "/" + name else name;
            var slash, colon := FindLast(repository, '/'), FindLast(repository, ':');
            colon.Some? ==> slash.Some? && colon.value < slash.value
  {
    if ns.Some? {
      var s := ns.value + ['/'] + name;
      assert ns.value + "/" + name == s;
      FindLastOnly(ns.value, '/', name);
      assert forall k :: |ns.value| < k < |s| ==> s[k] == name[k - |ns.value| - 1];
      assert s[|ns.value|] == '/';
    }
  }

  lemma {:induction false} NonBlankWords(parts: seq<string>)
    requires forall s :: s in parts ==> Word(s)
    ensures NonBlank(parts) == parts
  {
    if parts != [] {
      assert parts[0] in parts && forall s :: s in parts[1..] ==> s in parts;
      TrimNothing(parts[0]);
      NonBlankWords(parts[1..]);
    }
  }

  lemma SplitPrintedRepository(ns: string, name: string)
    requires Word(name) && forall s :: s in Split(ns, '/') ==> Word(s)
    requires Clean(ns + ['/'] + name)
    ensures SplitRepository(ns + "/" + name) == Ok((Some(ns), name))
  {
    var parts := Split(ns, '/');
    JoinSplit(ns, '/');
    assert ns + "/" + name == ns + ['/'] + name;
    JoinAppend(parts, [name], '/');
    var all := parts + [name];
    forall i | 0 <= i < |all| ensures '/' !in all[i] { assert i < |parts| ==> parts[i] in parts; }
    SplitJoin(all, '/');
    NonBlankWords(all);
    assert all[..|all| - 1] == parts;
  }

  lemma {:induction false} CleanJoin(parts: seq<string>)
    requires parts != [] && forall s :: s in parts ==> Word(s)
    ensures Clean(Join(parts, '/'))
  {
    assert parts[0] in parts;
    if |parts| > 1 {
      assert forall s :: s in parts[1..] ==> s in parts;
      CleanJoin(parts[1..]);
    }
  }

  lemma CleanNamespace(r: ImageReference)
    requires WellFormed(r) && r.namespace.Some?
    ensures Clean(r.namespace.value)
  {
    JoinSplit(r.namespace.value, '/');
    CleanJoin(Split(r.namespace.value, '/'));
  }

  lemma RepositoryBack(r: ImageReference)
    requires WellFormed(r)
    ensures Clean(Repository(r)) && SplitRepository(Repository(r)) == Ok((r.namespace, r.name))
  {
    if r.namespace.Some? {
      CleanNamespace(r);
      assert Repository(r) == r.namespace.value + ['/'] + r.name;
      SplitPrintedRepository(r.namespace.value, r.name);
    } else {
      assert Split(r.name, '/') == [r.name];
      TrimNothing(r.name);
      assert NonBlank([r.name]) == [r.name] by { assert [r.name][1..] == []; }
    }
  }

  /** Parsing a printed reference returns its parts. */
  lemma ParsePrintedImage(r: ImageReference)
    requires WellFormed(r)
    ensures ParseImage(PrintImage(r)) == Ok(r)
  {
    RepositoryBack(r);
    if r.namespace.Some? { CleanNamespace(r); }
    if r.digest.Some? { DigestIsClean(r.digest.value); }
    var front := Repository(r) + TagSuffix(r);
    assert Clean(front);
    PrintedIsTrimmed(r);
    SplitPrintedDigest(front, r.digest);
    SplitPrintedTag(r.namespace, r.name, r.tag, r.digest.None?);
  }

  lemma PrintedIsTrimmed(r: ImageReference)
    requires Clean(Repository(r) + TagSuffix(r)) && (r.digest.Some? ==> Clean(r.digest.value))
    ensures PrintImage(r) != "" && Trim(PrintImage(r)) == PrintImage(r)
  {
    TrimNothing(PrintImage(r));
  }

  // ------------------------------------------------------------- tags in any text

  /** The text in front of the digest. */
  function ReferencePart(text: string): string {
    match SplitOnce(Trim(text), '@')
    case None => Trim(text)
    case Some((reference, _)) => Trim(reference)
  }

  /** The last colon, with no slash behind it. */
  predicate StartsTag(reference: string, k: nat) {
    k < |reference| && reference[k] == ':' && ':' !in reference[k + 1..] && '/' !in reference[k + 1..]
  }

  lemma TagPosition(reference: string, k: nat)
    requires StartsTag(reference, k)
    ensures FindLast(reference, ':') == Some(k)
    ensures FindLast(reference, '/').Some? ==> FindLast(reference, '/').value < k
  {
    LastUnique(reference, ':', k, FindLast(reference, ':').value);
    assert forall i :: k < i < |reference| ==> reference[i] == reference[k + 1..][i - k - 1];
  }

  lemma SplitTagExact(reference: string, tagRequired: bool)
    requires SplitTag(reference, tagRequired).Ok?
    ensures SplitTag(reference, tagRequired).value.1.Some? <==> exists k: nat :: StartsTag(reference, k)
    ensures forall k: nat :: StartsTag(reference, k) ==>
              SplitTag(reference, tagRequired).value == (Trim(reference[..k]), Some(Trim(reference[k + 1..])))
  {
    forall k: nat | StartsTag(reference, k)
      ensures SplitTag(reference, tagRequired).value == (Trim(reference[..k]), Some(Trim(reference[k + 1..])))
    {
      TagPosition(reference, k);
    }
    var slash, colon := FindLast(reference, '/'), FindLast(reference, ':');
    if colon.Some? && (slash.Some? ==> colon.value > slash.value) {
      assert forall i :: colon.value < i < |reference| ==> reference[i] != '/' by {
        if slash.Some? { assert forall i :: slash.value < i < |reference| ==> reference[slash.value + 1..][i - slash.value - 1] == reference[i]; }
      }
      assert StartsTag(reference, colon.value);
    }
  }

  /**
   Whatever text is accepted, it has a tag iff its last colon stands behind every slash; the tag is
   what follows that colon, so the colon of a host and port is never read as one.
   */
  lemma TagIsBehindLastSlash(text: string)
    requires ParseImage(text).Ok?
    ensures ParseImage(text).value.tag.Some? <==> exists k: nat :: StartsTag(ReferencePart(text), k)
    ensures forall k: nat :: StartsTag(ReferencePart(text), k) ==>
              ParseImage(text).value.tag == Some(Trim(ReferencePart(text)[k + 1..]))
    ensures ParseImage(text).value.tag.Some? ==>
              '/' !in ParseImage(text).value.tag.value && ':' !in ParseImage(text).value.tag.value
  {
    var reference, digest := SplitDigest(Trim(text)).value.0, SplitDigest(Trim(text)).value.1;
    assert reference == ReferencePart(text);
    SplitTagExact(reference, digest.None?);
    if k: nat :| StartsTag(reference, k) {
      TrimIsPart(reference[k + 1..]);
    }
  }

  /** Without such a colon and without a digest the text is refused. */
  lemma UntaggedNeedsDigest(text: string)
    requires '@' !in Trim(text) && !exists k: nat :: StartsTag(Trim(text), k)
    ensures ParseImage(text) == Err
  {
    var reference := Trim(text);
    if SplitTag(reference, true).Ok? { SplitTagExact(reference, true); }
  }

  /** The text behind the first at sign must be `sha256:` and 64 lower-case hexadecimal digits. */
  lemma DigestIsChecked(text: string, reference: string, digest: string)
    requires Trim(text) == reference + ['@'] + digest && '@' !in reference
    ensures ParseImage(text).Ok? ==> ParseImage(text).value.digest == Some(Trim(digest))
    ensures ParseImage(text).Ok? ==>
              var d := Trim(digest);
              d[..7] == "sha256:" && |d| == 71
              && forall i :: 7 <= i < 71 ==> d[i] in "0123456789abcdef"
  {
    SplitOnceAt(reference, '@', digest);
    if ParseImage(text).Ok? {
      var d := Trim(digest);
      assert IsDigest(d);
      forall i | 7 <= i < 71 ensures d[i] in "0123456789abcdef" { HexIsListed(d[i]); }
    }
  }

  lemma HexIsListed(c: char)
    requires IsLowerHex(c)
    ensures c in "0123456789abcdef"
  {
    var digits := "0123456789abcdef";
    if c <= '9' {
      assert digits[c as int - '0' as int] == c;
    } else {
      assert digits[c as int - 'a' as int + 10] == c;
    }
  }

  lemma {:induction false} NonBlankOnly(parts: seq<string>)
    ensures forall s :: s in NonBlank(parts) <==> s in parts && Trim(s) != ""
  {
    if parts != [] {
      NonBlankOnly(parts[1..]);
      assert parts == [parts[0]] + parts[1..];
    }
  }

  /** Blank segments of the repository are left out of the namespace and are never the name. */
  lemma NoBlankSegments(text: string)
    requires ParseImage(text).Ok?
    ensures var r := ParseImage(text).value;
            && Trim(r.name) != ""
            && (r.namespace.Some? ==> forall s :: s in Split(r.namespace.value, '/') ==> Trim(s) != "")
  {
    var reference, digest := SplitDigest(Trim(text)).value.0, SplitDigest(Trim(text)).value.1;
    NoBlankRepository(SplitTag(reference, digest.None?).value.0);
  }

  lemma NoBlankRepository(repository: string)
    requires SplitRepository(repository).Ok?
    ensures var (namespace, name) := SplitRepository(repository).value;
            && Trim(name) != ""
            && (namespace.Some? ==> forall s :: s in Split(namespace.value, '/') ==> Trim(s) != "")
  {
    var segments := NonBlank(Split(repository, '/'));
    NonBlankOnly(Split(repository, '/'));
    JoinSplit(repository, '/');
    var front := segments[..|segments| - 1];
    assert segments[|segments| - 1] in segments;
    if front != [] {
      forall i | 0 <= i < |front| ensures '/' !in front[i] && Trim(front[i]) != "" {
        assert front[i] == segments[i] && segments[i] in segments;
      }
      SplitJoin(front, '/');
    }
  }
}
