/** PyPI project names: the command line's and the protocol's normalisation. */
module PypiName {
  import opened Wrappers
  import opened Text
  import opened Respelling

  predicate IsSeparator(c: char) {
    c == '-' || c == '_' || c == '.'
  }

  // ---------------------------------------------------- the rule and the flag loop

  function AfterRun(s: string): (r: string)
    ensures |r| <= |s| && (r != "" ==> !IsSeparator(r[0]))
  {
    if s != "" && IsSeparator(s[0]) then AfterRun(s[1..]) else s
  }

  /** The "Normalized Names" rule of PEP 503: lower case, each run of separators becomes one dash. */
  function Pep503(s: string): string
    decreases |s|
  {
    if s == "" then ""
    else if IsSeparator(s[0]) then "-" + Pep503(AfterRun(s[1..]))
    else [ToLower(s[0])] + Pep503(s[1..])
  }

  /** What the loop appends for one character; the flag says that a separator was seen last. */
  function Spelled(c: char, previousSeparator: bool): string {
    if !IsSeparator(c) then [ToLower(c)] else if previousSeparator then "" else "-"
  }

  /** What the loop still appends. */
  function Canon(s: string, previousSeparator: bool): string {
    if s == "" then "" else Spelled(s[0], previousSeparator) + Canon(s[1..], IsSeparator(s[0]))
  }

  lemma {:induction false} CanonIsPep503(s: string)
    ensures Canon(s, false) == Pep503(s) && Canon(s, true) == Pep503(AfterRun(s))
  {
    if s != "" {
      CanonIsPep503(s[1..]);
      assert "" + Canon(s[1..], true) == Canon(s[1..], true);
    }
  }

  lemma CanonStep(done: string, s: string, i: nat, previous: bool)
    requires i < |s|
    ensures done + Canon(s[i..], previous)
         == (done + Spelled(s[i], previous)) + Canon(s[i + 1..], IsSeparator(s[i]))
  {
    assert s[i..][0] == s[i] && s[i..][1..] == s[i + 1..];
  }

  method Normalize(s: string) returns (r: string)
    ensures r == Pep503(s)
  {
    r := "";
    var previousSeparator := false;
    for i := 0 to |s|
      invariant r + Canon(s[i..], previousSeparator) == Canon(s, false)
    {
      CanonStep(r, s, i, previousSeparator);
      if IsSeparator(s[i]) {
        if !previousSeparator {
          r := r + "-";
          previousSeparator := true;
        } else {
          assert r + "" == r;
        }
      } else {
        r := r + [ToLower(s[i])];
        previousSeparator := false;
      }
    }
    assert s[|s|..] == "" && r + "" == r;
    CanonIsPep503(s);
  }

  lemma CanonOne(c: char, q: string, previous: bool)
    ensures Canon([c] + q, previous)
         == Spelled(c, previous) + Canon(q, IsSeparator(c))
  {
    assert ([c] + q)[1..] == q;
  }

  predicate EndsInSeparator(s: string, previous: bool) {
    if s == "" then previous else IsSeparator(s[|s| - 1])
  }

  lemma {:induction false} CanonAppend(a: string, b: string, previous: bool)
    ensures Canon(a + b, previous) == Canon(a, previous) + Canon(b, EndsInSeparator(a, previous))
  {
    if a == "" {
      assert a + b == b;
    } else {
      assert (a + b)[0] == a[0] && (a + b)[1..] == a[1..] + b;
      CanonAppend(a[1..], b, IsSeparator(a[0]));
      Reassociate(Spelled(a[0], previous), Canon(a[1..], IsSeparator(a[0])), Canon(b, EndsInSeparator(a, previous)));
    }
  }

  // --------------------------------------------------------------------- idempotence

  /** Lower case, dashes as the only separators, and no two of them in a row. */
  predicate Normal(s: string, previous: bool) {
    s == "" || (ToLower(s[0]) == s[0] && (IsSeparator(s[0]) ==> s[0] == '-' && !previous) && Normal(s[1..], IsSeparator(s[0])))
  }

  lemma {:induction false} CanonIsNormal(s: string, previous: bool)
    ensures Normal(Canon(s, previous), previous)
  {
    if s != "" {
      CanonIsNormal(s[1..], IsSeparator(s[0]));
      var rest := Canon(s[1..], IsSeparator(s[0]));
      if !IsSeparator(s[0]) {
        assert ([ToLower(s[0])] + rest)[1..] == rest;
      } else if !previous {
        assert ("-" + rest)[1..] == rest;
      } else {
        assert "" + rest == rest;
      }
    }
  }

  lemma {:induction false} NormalIsFixed(s: string, previous: bool)
    requires Normal(s, previous)
    ensures Canon(s, previous) == s
  {
    if s != "" { NormalIsFixed(s[1..], IsSeparator(s[0])); }
  }

  lemma Pep503Idempotent(s: string)
    ensures Pep503(Pep503(s)) == Pep503(s)
  {
    CanonIsPep503(s);
    CanonIsNormal(s, false);
    NormalIsFixed(Pep503(s), false);
    CanonIsPep503(Pep503(s));
  }

  // ------------------------------------------------------------------ which names collide

  /** Letters differing in ASCII case, or two separators. */
  predicate Alike(x: char, y: char) {
    if IsSeparator(x) then IsSeparator(y) else ToLower(x) == ToLower(y)
  }

  ghost predicate Replaces(a: string, b: string, p: string, x: char, y: char, q: string) {
    Alike(x, y) && a == p + [x] + q && b == p + [y] + q
  }

  ghost predicate Doubles(a: string, b: string, p: string, x: char, y: char, q: string) {
    IsSeparator(x) && IsSeparator(y) && a == p + [x] + q && b == p + [x, y] + q
  }

  /** One spelling change: a letter's case, the kind of a separator, or the length of a separator run. */
  ghost predicate Edited(a: string, b: string) {
    exists p, x, y, q :: Replaces(a, b, p, x, y, q) || Doubles(a, b, p, x, y, q) || Doubles(b, a, p, x, y, q)
  }

  /** Names connected by spelling changes. */
  ghost predicate Variants(a: string, b: string) {
    Connected(Edited, a, b)
  }

  lemma EditedSymmetric()
    ensures Symmetric(Edited)
  {
    forall a, b | Edited(a, b) ensures Edited(b, a) {
      var p, x, y, q :| Replaces(a, b, p, x, y, q) || Doubles(a, b, p, x, y, q) || Doubles(b, a, p, x, y, q);
      if Replaces(a, b, p, x, y, q) { assert Replaces(b, a, p, y, x, q); }
    }
  }

  lemma ReplaceKeepsCanon(p: string, x: char, y: char, q: string)
    requires Alike(x, y)
    ensures Canon(p + [x] + q, false) == Canon(p + [y] + q, false)
  {
    var previous := EndsInSeparator(p, false);
    assert p + [x] + q == p + ([x] + q) && p + [y] + q == p + ([y] + q);
    CanonAppend(p, [x] + q, false);
    CanonAppend(p, [y] + q, false);
    CanonOne(x, q, previous);
    CanonOne(y, q, previous);
  }

  lemma DoubleKeepsCanon(p: string, x: char, y: char, q: string)
    requires IsSeparator(x) && IsSeparator(y)
    ensures Canon(p + [x] + q, false) == Canon(p + [x, y] + q, false)
  {
    var previous := EndsInSeparator(p, false);
    assert p + [x] + q == p + ([x] + q) && p + [x, y] + q == p + ([x] + ([y] + q));
    CanonAppend(p, [x] + q, false);
    CanonAppend(p, [x] + ([y] + q), false);
    CanonOne(x, q, previous);
    CanonOne(x, [y] + q, previous);
    CanonOne(y, q, true);
    assert "" + Canon(q, true) == Canon(q, true);
  }

  lemma EditKeepsCanon(a: string, b: string)
    requires Edited(a, b)
    ensures Canon(a, false) == Canon(b, false)
  {
    var p, x, y, q :| Replaces(a, b, p, x, y, q) || Doubles(a, b, p, x, y, q) || Doubles(b, a, p, x, y, q);
    if Replaces(a, b, p, x, y, q) {
      ReplaceKeepsCanon(p, x, y, q);
    } else {
      DoubleKeepsCanon(p, x, y, q);
    }
  }

  lemma LowerTwice(c: char)
    ensures ToLower(ToLower(c)) == ToLower(c) && (IsSeparator(ToLower(c)) <==> IsSeparator(c))
  {
  }

  lemma DropStep(done: string, c: char, rest: string)
    requires done != "" && done[|done| - 1] == '-' && IsSeparator(c)
    ensures Edited(done + ([c] + rest), done + rest)
  {
    var p := done[..|done| - 1];
    assert done + ([c] + rest) == p + ['-', c] + rest && done + rest == p + ['-'] + rest;
    assert Doubles(done + rest, done + ([c] + rest), p, '-', c, rest);
  }

  lemma RespellStep(done: string, c: char, d: char, rest: string)
    requires Alike(c, d)
    ensures Edited(done + ([c] + rest), done + [d] + rest)
  {
    assert done + ([c] + rest) == done + [c] + rest;
    assert Replaces(done + ([c] + rest), done + [d] + rest, done, c, d, rest);
  }

  /** Every name can be respelled step by step into its normal form. */
  lemma {:induction false} ReachesCanon(done: string, s: string)
    requires done != "" && IsSeparator(done[|done| - 1]) ==> done[|done| - 1] == '-'
    ensures Variants(done + s, done + Canon(s, done != "" && IsSeparator(done[|done| - 1])))
    decreases |s|
  {
    var previous := done != "" && IsSeparator(done[|done| - 1]);
    if s == "" {
      Same(Edited, done + s);
    } else {
      var c, rest := s[0], s[1..];
      assert s == [c] + rest;
      CanonOne(c, rest, previous);
      if IsSeparator(c) && previous {
        DropStep(done, c, rest);
        ReachesCanon(done, rest);
        assert "" + Canon(rest, true) == Canon(rest, true);
        StepFirst(Edited, done + s, done + rest, done + Canon(s, previous));
      } else {
        var d := if IsSeparator(c) then '-' else ToLower(c);
        LowerTwice(c);
        RespellStep(done, c, d, rest);
        ReachesCanon(done + [d], rest);
        assert done + Canon(s, previous) == done + [d] + Canon(rest, IsSeparator(c));
        StepFirst(Edited, done + s, done + [d] + rest, done + Canon(s, previous));
      }
    }
  }

  /** Two names collide exactly when they differ only by ASCII case and separator runs. */
  lemma CollideIffVariants(a: string, b: string)
    ensures Pep503(a) == Pep503(b) <==> Variants(a, b)
  {
    if Variants(a, b) {
      forall x, y | Edited(x, y) ensures Pep503(x) == Pep503(y) {
        EditKeepsCanon(x, y);
        CanonIsPep503(x);
        CanonIsPep503(y);
      }
      var xs :| Chain(Edited, xs, a, b);
      Kept(Edited, Pep503, xs, a, b);
    }
    if Pep503(a) == Pep503(b) {
      ReachesPep503(a);
      ReachesPep503(b);
      EditedSymmetric();
      Meet(Edited, a, b, Pep503(a));
    }
  }

  lemma ReachesPep503(s: string)
    ensures Variants(s, Pep503(s))
  {
    CanonIsPep503(s);
    ReachesCanon("", s);
    assert "" + s == s && "" + Pep503(s) == Pep503(s);
  }

  /** A normalised name holds no upper-case letter. */
  lemma {:induction false} CanonIsLower(s: string, previous: bool)
    ensures forall i :: 0 <= i < |Canon(s, previous)| ==> !('A' <= Canon(s, previous)[i] <= 'Z')
  {
    if s != "" { CanonIsLower(s[1..], IsSeparator(s[0])); }
  }

  /** Names in upper and lower case collide, and no normalised name holds an upper-case letter. */
  lemma CaseCollides(p: string, x: char, y: char, q: string)
    requires 'A' <= x <= 'Z' && y as int == x as int + 32
    ensures Pep503(p + [x] + q) == Pep503(p + [y] + q)
    ensures forall i :: 0 <= i < |Pep503(p + [x] + q)| ==> !('A' <= Pep503(p + [x] + q)[i] <= 'Z')
  {
    assert Alike(x, y);
    ReplaceKeepsCanon(p, x, y, q);
    CanonIsPep503(p + [x] + q);
    CanonIsPep503(p + [y] + q);
    CanonIsLower(p + [x] + q, false);
  }
}
