/** Component references are made from sanitised names; sanitising can make different names equal. */
module References {
  import opened Wrappers
  import opened Text
  import opened Respelling

  predicate IsAlphanumeric(c: char) {
    'a' <= c <= 'z' || 'A' <= c <= 'Z' || '0' <= c <= '9'
  }

  predicate IsPlain(c: char) {
    IsAlphanumeric(c) || c == '.' || c == '_' || c == '-'
  }

  function Mark(c: char, lastWasDash: bool): string {
    if IsPlain(c) then [ToLower(c)] else if lastWasDash then "" else "-"
  }

  /** Lower-cases plain characters and turns every run of others into one dash. */
  function SanitizeFrom(s: string, lastWasDash: bool): string {
    if s == "" then "" else Mark(s[0], lastWasDash) + SanitizeFrom(s[1..], !IsPlain(s[0]))
  }

  function Sanitize(s: string): string {
    TrimMatches(SanitizeFrom(s, false), Is('-'))
  }

  predicate DashAfter(s: string, lastWasDash: bool) {
    if s == "" then lastWasDash else !IsPlain(s[|s| - 1])
  }

  lemma {:induction false} SanitizeAppend(a: string, b: string, lastWasDash: bool)
    ensures SanitizeFrom(a + b, lastWasDash) == SanitizeFrom(a, lastWasDash) + SanitizeFrom(b, DashAfter(a, lastWasDash))
  {
    if a == "" {
      assert a + b == b;
    } else {
      assert (a + b)[0] == a[0] && (a + b)[1..] == a[1..] + b;
      SanitizeAppend(a[1..], b, !IsPlain(a[0]));
      Reassociate(Mark(a[0], lastWasDash), SanitizeFrom(a[1..], !IsPlain(a[0])), SanitizeFrom(b, DashAfter(a, lastWasDash)));
    }
  }

  lemma SanitizeOne(c: char, rest: string, lastWasDash: bool)
    ensures SanitizeFrom([c] + rest, lastWasDash)
         == Mark(c, lastWasDash) + SanitizeFrom(rest, !IsPlain(c))
  {
    assert ([c] + rest)[1..] == rest;
  }

  lemma SanitizeStep(done: string, value: string, i: nat, lastWasDash: bool)
    requires i < |value|
    ensures done + SanitizeFrom(value[i..], lastWasDash)
         == (done + Mark(value[i], lastWasDash)) + SanitizeFrom(value[i + 1..], !IsPlain(value[i]))
  {
    assert value[i..] == [value[i]] + value[i + 1..];
    SanitizeOne(value[i], value[i + 1..], lastWasDash);
  }

  method SanitizeReference(value: string) returns (r: string)
    ensures r == Sanitize(value)
  {
    var sanitized, lastWasDash := "", false;
    for i := 0 to |value|
      invariant sanitized + SanitizeFrom(value[i..], lastWasDash) == SanitizeFrom(value, false)
    {
      var c := value[i];
      SanitizeStep(sanitized, value, i, lastWasDash);
      if IsAlphanumeric(c) {
        lastWasDash := false;
        sanitized := sanitized + [ToLower(c)];
      } else if c == '.' || c == '_' || c == '-' {
        lastWasDash := false;
        sanitized := sanitized + [c];
      } else if !lastWasDash {
        lastWasDash := true;
        sanitized := sanitized + "-";
      } else {
        assert sanitized + "" == sanitized;
      }
    }
    assert value[|value|..] == "" && sanitized + "" == sanitized;
    r := TrimMatches(sanitized, Is('-'));
  }

  lemma SanitizeMark(a: string, c: char, b: string, lastWasDash: bool)
    ensures SanitizeFrom(a + [c] + b, lastWasDash)
         == SanitizeFrom(a, lastWasDash)
            + Mark(c, DashAfter(a, lastWasDash)) + SanitizeFrom(b, !IsPlain(c))
  {
    assert a + [c] + b == a + ([c] + b);
    SanitizeAppend(a, [c] + b, lastWasDash);
    SanitizeOne(c, b, DashAfter(a, lastWasDash));
  }

  lemma SanitizeFlag(s: string, a: bool, b: bool)
    requires s != "" && IsPlain(s[0])
    ensures SanitizeFrom(s, a) == SanitizeFrom(s, b)
  {
  }

  /** A scoped package and an unscoped one with a dash get the same reference, below any prefix. */
  lemma SanitizeCollides(prefix: string, scope: string, name: string)
    requires scope != "" && IsPlain(scope[0]) && IsPlain(scope[|scope| - 1]) && name != "" && IsPlain(name[0])
    ensures Sanitize(prefix + "/@" + scope + "/" + name) == Sanitize(prefix + "/" + scope + "-" + name)
  {
    var scoped, dashed := scope + ['/'] + name, scope + ['-'] + name;
    SlashOrDash(scope, name);
    assert prefix + "/@" + scope + "/" + name == prefix + ['/'] + ['@'] + scoped;
    assert prefix + "/" + scope + "-" + name == prefix + ['/'] + dashed;
    BehindSlash(prefix + ['/'], scoped, dashed);
  }

  lemma SlashOrDash(scope: string, name: string)
    requires scope != "" && IsPlain(scope[|scope| - 1]) && name != "" && IsPlain(name[0])
    ensures SanitizeFrom(scope + ['/'] + name, true) == SanitizeFrom(scope + ['-'] + name, true)
  {
    SanitizeMark(scope, '/', name, true);
    SanitizeMark(scope, '-', name, true);
    SanitizeFlag(name, true, false);
  }

  /** Behind one character that is not plain, another makes no difference. */
  lemma BehindSlash(base: string, a: string, b: string)
    requires DashAfter(base, false) && SanitizeFrom(a, true) == SanitizeFrom(b, true)
    ensures SanitizeFrom(base + ['@'] + a, false) == SanitizeFrom(base + b, false)
  {
    SanitizeMark(base, '@', a, false);
    SanitizeAppend(base, b, false);
    assert SanitizeFrom(base, false) + "" == SanitizeFrom(base, false);
  }

  predicate AllPlain(s: string) {
    forall i :: 0 <= i < |s| ==> IsPlain(s[i]) && ToLower(s[i]) == s[i]
  }

  lemma {:induction false} SanitizePlain(s: string, lastWasDash: bool)
    requires AllPlain(s)
    ensures SanitizeFrom(s, lastWasDash) == s
  {
    if s != "" { SanitizePlain(s[1..], false); }
  }

  lemma {:induction false} SanitizedIsPlain(s: string, lastWasDash: bool)
    ensures AllPlain(SanitizeFrom(s, lastWasDash))
  {
    if s != "" {
      SanitizedIsPlain(s[1..], !IsPlain(s[0]));
      assert AllPlain([ToLower(s[0])]) || !IsPlain(s[0]);
      assert AllPlain("-");
    }
  }

  lemma {:induction false} TrimStartIsSuffix(s: string, p: char -> bool) returns (k: nat)
    ensures k <= |s| && TrimStartMatches(s, p) == s[k..] && (s[k..] != "" ==> !p(s[k]))
  {
    if s != "" && p(s[0]) {
      k := TrimStartIsSuffix(s[1..], p);
      assert s[1..][k..] == s[k + 1..];
      k := k + 1;
    } else {
      k := 0;
    }
  }

  lemma {:induction false} TrimEndIsPrefix(s: string, p: char -> bool) returns (k: nat)
    ensures k <= |s| && TrimEndMatches(s, p) == s[..k] && (s[..k] != "" ==> !p(s[k - 1]))
  {
    if s != "" && p(s[|s| - 1]) {
      k := TrimEndIsPrefix(s[..|s| - 1], p);
      assert s[..|s| - 1][..k] == s[..k];
    } else {
      k := |s|;
    }
  }

  /** Sanitising a sanitised reference changes nothing. */
  lemma SanitizeIdempotent(s: string)
    ensures Sanitize(Sanitize(s)) == Sanitize(s)
  {
    var t := SanitizeFrom(s, false);
    SanitizedIsPlain(s, false);
    var i := TrimStartIsSuffix(t, Is('-'));
    var j := TrimEndIsPrefix(t[i..], Is('-'));
    var r := t[i..][..j];
    assert Sanitize(s) == r;
    assert forall k :: 0 <= k < |r| ==> r[k] == t[i + k];
    SanitizePlain(r, false);
    assert r != "" ==> r[0] == t[i] && r[|r| - 1] == t[i..][j - 1];
  }

  // ------------------------------------------------------------- which names collide

  predicate AllForeign(s: string) {
    forall i :: 0 <= i < |s| ==> !IsPlain(s[i])
  }

  /** A plain character in another case. */
  ghost predicate Recased(a: string, b: string, p: string, x: char, y: char, q: string) {
    IsPlain(x) && IsPlain(y) && ToLower(x) == ToLower(y) && a == p + [x] + q && b == p + [y] + q
  }

  /** A whole run of characters that are not plain, and a dash in its place. */
  ghost predicate Dashed(a: string, b: string, p: string, run: string, q: string) {
    && run != "" && AllForeign(run)
    && (p == "" || IsPlain(p[|p| - 1])) && (q == "" || IsPlain(q[0]))
    && a == p + run + q && b == p + ['-'] + q
  }

  /** A dash more at one end. */
  predicate Wider(a: string, b: string) {
    a == ['-'] + b || a == b + ['-']
  }

  /** One spelling change that a reference does not show. */
  ghost predicate Hidden(a: string, b: string) {
    || (exists p, x, y, q :: Recased(a, b, p, x, y, q))
    || (exists p, run, q :: Dashed(a, b, p, run, q) || Dashed(b, a, p, run, q))
    || Wider(a, b) || Wider(b, a)
  }

  ghost predicate Respelled(a: string, b: string) {
    Connected(Hidden, a, b)
  }

  lemma HiddenSymmetric()
    ensures Symmetric(Hidden)
  {
    forall a, b | Hidden(a, b) ensures Hidden(b, a) {
      if p, x, y, q :| Recased(a, b, p, x, y, q) { assert Recased(b, a, p, y, x, q); }
    }
  }

  lemma {:induction false} SanitizeRun(run: string, lastWasDash: bool)
    requires AllForeign(run)
    ensures SanitizeFrom(run, lastWasDash) == if run == "" || lastWasDash then "" else "-"
  {
    if run != "" { SanitizeRun(run[1..], true); }
  }

  lemma DashedKept(p: string, run: string, q: string)
    requires run != "" && AllForeign(run) && (p == "" || IsPlain(p[|p| - 1])) && (q == "" || IsPlain(q[0]))
    ensures SanitizeFrom(p + run + q, false) == SanitizeFrom(p + ['-'] + q, false)
  {
    Reassociate(p, run, q);
    SanitizeAppend(p, run + q, false);
    SanitizeAppend(run, q, false);
    SanitizeRun(run, false);
    SanitizeMark(p, '-', q, false);
    if q != "" { SanitizeFlag(q, true, false); }
    Reassociate(SanitizeFrom(p, false), "-", SanitizeFrom(q, true));
  }

  lemma {:induction false} TrimStartDash(t: string)
    ensures TrimStartMatches(t + ['-'], Is('-'))
         == if TrimStartMatches(t, Is('-')) == "" then "" else TrimStartMatches(t, Is('-')) + ['-']
  {
    if t == "" {
      assert (t + ['-'])[1..] == "";
    } else if t[0] == '-' {
      assert (t + ['-'])[1..] == t[1..] + ['-'];
      TrimStartDash(t[1..]);
    }
  }

  lemma TrimDash(t: string)
    ensures TrimMatches(['-'] + t, Is('-')) == TrimMatches(t, Is('-'))
    ensures TrimMatches(t + ['-'], Is('-')) == TrimMatches(t, Is('-'))
  {
    assert (['-'] + t)[1..] == t;
    TrimStartDash(t);
    var u := TrimStartMatches(t, Is('-'));
    assert (u + ['-'])[..|u|] == u;
  }

  lemma WiderKept(a: string, b: string)
    requires Wider(a, b)
    ensures Sanitize(a) == Sanitize(b)
  {
    TrimDash(SanitizeFrom(b, false));
    if a == ['-'] + b {
      SanitizeOne('-', b, false);
    } else {
      SanitizeAppend(b, ['-'], false);
      SanitizeOne('-', "", DashAfter(b, false));
      assert ['-'] + "" == ['-'];
    }
  }

  lemma HiddenKept(a: string, b: string)
    requires Hidden(a, b)
    ensures Sanitize(a) == Sanitize(b)
  {
    if p, x, y, q :| Recased(a, b, p, x, y, q) {
      SanitizeMark(p, x, q, false);
      SanitizeMark(p, y, q, false);
    } else if p, run, q :| Dashed(a, b, p, run, q) || Dashed(b, a, p, run, q) {
      DashedKept(p, run, q);
    } else if Wider(a, b) {
      WiderKept(a, b);
    } else {
      WiderKept(b, a);
    }
  }

  function RunLength(s: string): (n: nat)
    ensures n <= |s| && AllForeign(s[..n]) && (n < |s| ==> IsPlain(s[n]))
  {
    if s == "" || IsPlain(s[0]) then 0
    else
      var n := RunLength(s[1..]);
      assert s[..n + 1] == [s[0]] + s[1..][..n];
      n + 1
  }

  lemma RecaseStep(done: string, c: char, rest: string)
    requires IsPlain(c)
    ensures Hidden(done + ([c] + rest), done + [ToLower(c)] + rest)
  {
    assert done + ([c] + rest) == done + [c] + rest;
    assert Recased(done + ([c] + rest), done + [ToLower(c)] + rest, done, c, ToLower(c), rest);
  }

  lemma DashStep(done: string, run: string, q: string)
    requires run != "" && AllForeign(run) && (done == "" || IsPlain(done[|done| - 1])) && (q == "" || IsPlain(q[0]))
    ensures Hidden(done + (run + q), done + ['-'] + q)
  {
    Reassociate(done, run, q);
    assert Dashed(done + (run + q), done + ['-'] + q, done, run, q);
  }

  lemma SanitizeRunFirst(run: string, q: string)
    requires run != "" && AllForeign(run) && (q == "" || IsPlain(q[0]))
    ensures SanitizeFrom(run + q, false) == ['-'] + SanitizeFrom(q, false)
  {
    SanitizeAppend(run, q, false);
    SanitizeRun(run, false);
    if q != "" { SanitizeFlag(q, true, false); }
  }

  /** Every name can be respelled step by step into the text before the outer dashes are cut off. */
  lemma {:induction false} ReachesDashed(done: string, s: string)
    requires done == "" || IsPlain(done[|done| - 1])
    ensures Respelled(done + s, done + SanitizeFrom(s, false))
    decreases |s|
  {
    if s == "" {
      Same(Hidden, done + s);
    } else if IsPlain(s[0]) {
      var c, rest := s[0], s[1..];
      assert s == [c] + rest;
      SanitizeOne(c, rest, false);
      RecaseStep(done, c, rest);
      ReachesDashed(done + [ToLower(c)], rest);
      Reassociate(done, [ToLower(c)], SanitizeFrom(rest, false));
      StepFirst(Hidden, done + s, done + [ToLower(c)] + rest, done + SanitizeFrom(s, false));
    } else {
      var n := RunLength(s);
      var run, q := s[..n], s[n..];
      assert s == run + q;
      DashStep(done, run, q);
      SanitizeRunFirst(run, q);
      ReachesDashed(done + ['-'], q);
      Reassociate(done, ['-'], SanitizeFrom(q, false));
      StepFirst(Hidden, done + s, done + ['-'] + q, done + SanitizeFrom(s, false));
    }
  }

  lemma {:induction false} ReachesTrimmed(t: string)
    ensures Respelled(t, TrimMatches(t, Is('-')))
    decreases |t|
  {
    if t != "" && t[0] == '-' {
      assert t == ['-'] + t[1..];
      TrimDash(t[1..]);
      ReachesTrimmed(t[1..]);
      StepFirst(Hidden, t, t[1..], TrimMatches(t, Is('-')));
    } else if t != "" && t[|t| - 1] == '-' {
      var front := t[..|t| - 1];
      assert t == front + ['-'];
      TrimDash(front);
      ReachesTrimmed(front);
      StepFirst(Hidden, t, front, TrimMatches(t, Is('-')));
    } else {
      Same(Hidden, t);
    }
  }

  /** Two names become the same reference exactly when hidden changes lead from one to the other. */
  lemma CollideIffRespelled(a: string, b: string)
    ensures Sanitize(a) == Sanitize(b) <==> Respelled(a, b)
  {
    if Respelled(a, b) {
      forall x, y | Hidden(x, y) ensures Sanitize(x) == Sanitize(y) { HiddenKept(x, y); }
      var xs :| Chain(Hidden, xs, a, b);
      Kept(Hidden, Sanitize, xs, a, b);
    }
    if Sanitize(a) == Sanitize(b) {
      ReachesSanitized(a);
      ReachesSanitized(b);
      HiddenSymmetric();
      Meet(Hidden, a, b, Sanitize(a));
    }
  }

  lemma ReachesSanitized(s: string)
    ensures Respelled(s, Sanitize(s))
  {
    ReachesDashed("", s);
    assert "" + s == s && "" + SanitizeFrom(s, false) == SanitizeFrom(s, false);
    ReachesTrimmed(SanitizeFrom(s, false));
    Transitive(Hidden, s, SanitizeFrom(s, false), Sanitize(s));
  }

  /** A reference part holds plain characters only, so colons can separate such parts. */
  lemma SanitizedHasNoColon(s: string)
    ensures ':' !in Sanitize(s)
  {
    var t := SanitizeFrom(s, false);
    SanitizedIsPlain(s, false);
    var i := TrimStartIsSuffix(t, Is('-'));
    var j := TrimEndIsPrefix(t[i..], Is('-'));
    assert Sanitize(s) == t[i..][..j];
    assert forall k :: 0 <= k < j ==> t[i..][..j][k] == t[i + k];
  }
}
