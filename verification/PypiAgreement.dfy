/**
 The command line and the protocol crate both normalise PyPI names, with different handling of
 extras, slashes and outer separators.  They give the same name exactly on the inputs named here.
 */
module PypiAgreement {
  import opened Wrappers
  import opened Text
  import opened PypiName

  /** The command line's reading: extras after `[` are dropped. */
  function CliName(s: string): Option<string> {
    var base := Trim(Before(s, '['));
    if base == "" then None else Some(Pep503(base))
  }

  datatype Protocol = Name(name: string) | EmptyName | UnsafePath

  predicate IsUnsafe(s: string) {
    || "/" <= s
    || '\\' in s
    || exists seg :: seg in Split(s, '/') && (seg == ".." || seg == "." || seg == "")
  }

  function ProtocolInput(s: string): string {
    TrimMatches(Trim(s), Is('/'))
  }

  /** The protocol's reading: slashes around the name are dropped, unsafe paths refused. */
  function ProtocolName(s: string): Protocol {
    var t := ProtocolInput(s);
    if IsUnsafe(t) then UnsafePath
    else if t == "" then EmptyName
    else Name(TrimMatches(Pep503(t), Is('-')))
  }

  method CanonicalizePypiName(rawName: string) returns (r: Protocol)
    ensures r == ProtocolName(rawName)
    ensures var t := TrimMatches(Trim(rawName), Is('/'));
            r == UnsafePath <==> || "/" <= t || '\\' in t || ".." in Split(t, '/') || "." in Split(t, '/') || "" in Split(t, '/')
  {
    var trimmed := TrimMatches(Trim(rawName), Is('/'));
    if IsUnsafe(trimmed) { return UnsafePath; }
    if trimmed == "" { return EmptyName; }
    var canonical := Normalize(trimmed);
    return Name(TrimMatches(canonical, Is('-')));
  }

  /** The empty name is refused as an unsafe path, so its own error is never reported. */
  lemma EmptyNameNeverReported(s: string)
    ensures ProtocolName(s) != EmptyName
  {
    assert Split("", '/') == [""];
    assert "" in Split("", '/');
  }

  // ------------------------------------------------------------------ counting a character

  function Count(s: string, c: char): nat {
    if s == "" then 0 else (if s[0] == c then 1 else 0) + Count(s[1..], c)
  }

  lemma {:induction false} CountAppend(a: string, b: string, c: char)
    ensures Count(a + b, c) == Count(a, c) + Count(b, c)
  {
    if a == "" {
      assert a + b == b;
    } else {
      assert (a + b)[1..] == a[1..] + b;
      CountAppend(a[1..], b, c);
    }
  }

  lemma {:induction false} CountPositive(s: string, c: char)
    ensures Count(s, c) > 0 <==> c in s
  {
    if s != "" { CountPositive(s[1..], c); }
  }

  /** A character that normalisation leaves alone. */
  predicate IsKept(c: char) {
    !IsSeparator(c) && !('a' <= c <= 'z') && !('A' <= c <= 'Z')
  }

  lemma {:induction false} CountCanon(s: string, previous: bool, c: char)
    requires IsKept(c)
    ensures Count(Canon(s, previous), c) == Count(s, c)
  {
    if s != "" {
      var rest := Canon(s[1..], IsSeparator(s[0]));
      CountCanon(s[1..], IsSeparator(s[0]), c);
      var head := if !IsSeparator(s[0]) then [ToLower(s[0])] else if previous then "" else "-";
      CountAppend(head, rest, c);
      assert Count(head, c) == if s[0] == c then 1 else 0 by { assert head != "" ==> head[1..] == ""; }
    }
  }

  lemma {:induction false} CountTrimStart(s: string, p: char -> bool, c: char)
    ensures Count(TrimStartMatches(s, p), c) <= Count(s, c)
    ensures !p(c) ==> Count(TrimStartMatches(s, p), c) == Count(s, c)
    ensures p(c) && s != "" && s[0] == c ==> Count(TrimStartMatches(s, p), c) < Count(s, c)
  {
    if s != "" && p(s[0]) { CountTrimStart(s[1..], p, c); }
  }

  lemma {:induction false} CountTrimEnd(s: string, p: char -> bool, c: char)
    ensures Count(TrimEndMatches(s, p), c) <= Count(s, c)
    ensures !p(c) ==> Count(TrimEndMatches(s, p), c) == Count(s, c)
    ensures p(c) && s != "" && s[|s| - 1] == c ==> Count(TrimEndMatches(s, p), c) < Count(s, c)
  {
    if s != "" && p(s[|s| - 1]) {
      var front, last := s[..|s| - 1], s[|s| - 1];
      CountTrimEnd(front, p, c);
      assert s == front + [last];
      CountAppend(front, [last], c);
      assert Count([last], c) == if last == c then 1 else 0 by { assert [last][1..] == ""; }
    }
  }

  lemma CountTrim(s: string, p: char -> bool, c: char)
    ensures Count(TrimMatches(s, p), c) <= Count(s, c)
    ensures !p(c) ==> Count(TrimMatches(s, p), c) == Count(s, c)
  {
    CountTrimStart(s, p, c);
    CountTrimEnd(TrimStartMatches(s, p), p, c);
  }

  /** Dropping slashes around a text that has one at either end drops at least one. */
  lemma TrimDropsSlash(s: string)
    requires s != "" && (s[0] == '/' || s[|s| - 1] == '/')
    ensures Count(TrimMatches(s, Is('/')), '/') < Count(s, '/')
  {
    CountTrimStart(s, Is('/'), '/');
    CountTrimEnd(TrimStartMatches(s, Is('/')), Is('/'), '/');
  }

  // ------------------------------------------------------------------------- agreement

  predicate IsOuter(c: char) {
    c == '/' || IsSeparator(c)
  }

  /** No extras, no slash or separator at the ends of the trimmed name, and a safe path. */
  predicate Comparable(s: string) {
    && '[' !in s
    && var t := Trim(s);
       t != "" && !IsOuter(t[0]) && !IsOuter(t[|t| - 1]) && !IsUnsafe(t)
  }

  ghost predicate SameName(s: string) {
    CliName(s).Some? && ProtocolName(s) == Name(CliName(s).value)
  }

  lemma CanonEnds(s: string, previous: bool)
    requires s != "" && !IsSeparator(s[|s| - 1])
    ensures var r := Canon(s, previous); r != "" && r[|r| - 1] == ToLower(s[|s| - 1])
  {
    var front, c := s[..|s| - 1], s[|s| - 1];
    assert s == front + [c] && [c] + "" == [c];
    CanonAppend(front, [c], previous);
    CanonOne(c, "", EndsInSeparator(front, previous));
    assert Canon([c], EndsInSeparator(front, previous)) == [ToLower(c)];
  }

  lemma {:induction false} CanonEndsInDash(s: string, previous: bool)
    requires s != "" && IsSeparator(s[|s| - 1])
    ensures var r := Canon(s, previous); (r == "" && previous) || (r != "" && r[|r| - 1] == '-')
  {
    if |s| > 1 {
      CanonEndsInDash(s[1..], IsSeparator(s[0]));
    } else {
      assert s[1..] == "";
    }
  }

  lemma ComparableAgree(s: string)
    requires Comparable(s)
    ensures SameName(s)
  {
    var t := Trim(s);
    assert Before(s, '[') == s;
    assert ProtocolInput(s) == t;
    CanonIsPep503(t);
    CanonEnds(t, false);
    var r := Pep503(t);
    assert r[0] == ToLower(t[0]);
    LowerTwice(t[0]);
    LowerTwice(t[|t| - 1]);
    assert TrimMatches(r, Is('-')) == r;
  }

  lemma ProtocolCount(s: string, c: char)
    requires ProtocolName(s).Name? && IsKept(c) && c != '-'
    ensures Count(ProtocolName(s).name, c) == Count(ProtocolInput(s), c)
  {
    var t := ProtocolInput(s);
    CountTrim(Pep503(t), Is('-'), c);
    CanonIsPep503(t);
    CountCanon(t, false, c);
  }

  lemma BracketsDisagree(s: string)
    requires '[' in s
    ensures !SameName(s)
  {
    if SameName(s) {
      var cut := Before(s, '[');
      ProtocolCount(s, '[');
      CountTrim(s, IsWhitespace, '[');
      CountTrim(Trim(s), Is('/'), '[');
      CountPositive(s, '[');
      CountTrim(cut, IsWhitespace, '[');
      CanonIsPep503(Trim(cut));
      CountCanon(Trim(cut), false, '[');
      CountPositive(cut, '[');
    }
  }

  lemma SlashesDisagree(s: string)
    requires '[' !in s && var t := Trim(s); t != "" && (t[0] == '/' || t[|t| - 1] == '/')
    ensures !SameName(s)
  {
    if SameName(s) {
      var t := Trim(s);
      assert Before(s, '[') == s;
      TrimDropsSlash(t);
      ProtocolCount(s, '/');
      CanonIsPep503(t);
      CountCanon(t, false, '/');
    }
  }

  lemma SeparatorsDisagree(s: string)
    requires '[' !in s && var t := Trim(s); t != "" && (IsSeparator(t[0]) || IsSeparator(t[|t| - 1]))
    ensures !SameName(s)
  {
    var t := Trim(s);
    var r := Pep503(t);
    assert Before(s, '[') == s;
    CanonIsPep503(t);
    assert IsSeparator(t[0]) ==> r[0] == '-';
    if !IsSeparator(t[0]) { CanonEndsInDash(t, false); }
    TrimmedEnds(Pep503(ProtocolInput(s)), '-');
  }

  lemma UnsafeDisagree(s: string)
    requires '[' !in s && var t := Trim(s); t != "" && !IsOuter(t[0]) && !IsOuter(t[|t| - 1]) && IsUnsafe(t)
    ensures !SameName(s)
  {
    assert ProtocolInput(s) == Trim(s);
  }

  /** The two normalisations give the same name exactly on comparable inputs. */
  lemma AgreeExactly(s: string)
    ensures SameName(s) <==> Comparable(s)
  {
    var t := Trim(s);
    if Comparable(s) {
      ComparableAgree(s);
    } else if '[' in s {
      BracketsDisagree(s);
    } else if t == "" {
      assert Before(s, '[') == s;
    } else if t[0] == '/' || t[|t| - 1] == '/' {
      SlashesDisagree(s);
    } else if IsSeparator(t[0]) || IsSeparator(t[|t| - 1]) {
      SeparatorsDisagree(s);
    } else {
      UnsafeDisagree(s);
    }
  }
}
