/** The string operations of Rust's standard library that the readers and printers use. */
module Text {
  import opened Wrappers

  /** `char::is_whitespace`: the Unicode White_Space property. */
  predicate IsWhitespace(c: char) {
    var u := c as int;
    || 0x09 <= u <= 0x0D || u == 0x20 || u == 0x85 || u == 0xA0 || u == 0x1680
    || 0x2000 <= u <= 0x200A || u == 0x2028 || u == 0x2029 || u == 0x202F || u == 0x205F || u == 0x3000
  }

  function ToLower(c: char): char {
    if 'A' <= c <= 'Z' then c - 'A' + 'a' else c
  }

  function StripPrefix(s: string, prefix: string): Option<string> {
    if prefix <= s then Some(s[|prefix|..]) else None
  }

  function TrimStartMatches(s: string, p: char -> bool): string {
    if s != "" && p(s[0]) then TrimStartMatches(s[1..], p) else s
  }

  function TrimEndMatches(s: string, p: char -> bool): string {
    if s != "" && p(s[|s| - 1]) then TrimEndMatches(s[..|s| - 1], p) else s
  }

  function TrimMatches(s: string, p: char -> bool): string {
    TrimEndMatches(TrimStartMatches(s, p), p)
  }

  function Is(c: char): char -> bool {
    x => x == c
  }

  function TrimStart(s: string): string {
    TrimStartMatches(s, IsWhitespace)
  }

  function TrimEnd(s: string): string {
    TrimEndMatches(s, IsWhitespace)
  }

  function Trim(s: string): string {
    TrimMatches(s, IsWhitespace)
  }

  predicate OccursAt(s: string, pattern: string, i: nat) {
    i + |pattern| <= |s| && s[i..i + |pattern|] == pattern
  }

  predicate Contains(s: string, pattern: string) {
    exists i :: 0 <= i <= |s| && OccursAt(s, pattern, i)
  }

  /** The greatest position below `n` at which `pattern` occurs. */
  function LastText(s: string, pattern: string, n: nat): (r: Option<nat>)
    ensures r.Some? ==> r.value < n && OccursAt(s, pattern, r.value)
    ensures forall k :: (if r.Some? then r.value < k else true) && 0 <= k < n ==> !OccursAt(s, pattern, k)
  {
    if n == 0 then None
    else if OccursAt(s, pattern, n - 1) then Some(n - 1)
    else LastText(s, pattern, n - 1)
  }

  function FindFrom(s: string, c: char, i: nat): (r: Option<nat>)
    requires i <= |s|
    ensures r.None? ==> forall k :: i <= k < |s| ==> s[k] != c
    ensures r.Some? ==> i <= r.value < |s| && s[r.value] == c && forall k :: i <= k < r.value ==> s[k] != c
    decreases |s| - i
  {
    if i == |s| then None else if s[i] == c then Some(i) else FindFrom(s, c, i + 1)
  }

  /** Position of the first `c`. */
  function Find(s: string, c: char): (r: Option<nat>)
    ensures r.Some? <==> c in s
    ensures r.Some? ==> r.value < |s| && s[r.value] == c && c !in s[..r.value]
  {
    FindFrom(s, c, 0)
  }

  function FindBelow(s: string, c: char, n: nat): (r: Option<nat>)
    requires n <= |s|
    ensures r.None? ==> forall k :: 0 <= k < n ==> s[k] != c
    ensures r.Some? ==> r.value < n && s[r.value] == c && forall k :: r.value < k < n ==> s[k] != c
  {
    if n == 0 then None else if s[n - 1] == c then Some(n - 1) else FindBelow(s, c, n - 1)
  }

  /** Position of the last `c`. */
  function FindLast(s: string, c: char): (r: Option<nat>)
    ensures r.Some? <==> c in s
    ensures r.Some? ==> r.value < |s| && s[r.value] == c && c !in s[r.value + 1..]
  {
    FindBelow(s, c, |s|)
  }

  function SplitOnce(s: string, c: char): Option<(string, string)> {
    var i :- Find(s, c);
    Some((s[..i], s[i + 1..]))
  }

  function RSplitOnce(s: string, c: char): Option<(string, string)> {
    var i :- FindLast(s, c);
    Some((s[..i], s[i + 1..]))
  }

  /** The part before the first `c`, or everything. */
  function Before(s: string, c: char): string {
    if c in s then s[..Find(s, c).value] else s
  }

  function Split(s: string, c: char): (r: seq<string>)
    ensures r != []
    decreases |s|
  {
    if c !in s then [s]
    else
      var i := Find(s, c).value;
      [s[..i]] + Split(s[i + 1..], c)
  }

  function SplitN(s: string, n: nat, c: char): (r: seq<string>)
    ensures r != []
    decreases |s|
  {
    if n <= 1 || c !in s then [s]
    else
      var i := Find(s, c).value;
      [s[..i]] + SplitN(s[i + 1..], n - 1, c)
  }

  function Join(parts: seq<string>, c: char): string {
    if parts == [] then ""
    else if |parts| == 1 then parts[0]
    else parts[0] + [c] + Join(parts[1..], c)
  }

  function WordLength(s: string): (n: nat)
    ensures n <= |s| && NoWhitespace(s[..n]) && (n < |s| ==> IsWhitespace(s[n]))
  {
    if s == "" || IsWhitespace(s[0]) then 0
    else
      var n := WordLength(s[1..]);
      assert s[..n + 1] == [s[0]] + s[1..][..n];
      1 + n
  }

  function TrimStartShrinks(s: string): (t: string)
    ensures t == TrimStart(s) && |t| <= |s| && (t != "" ==> !IsWhitespace(t[0]))
  {
    if s != "" && IsWhitespace(s[0]) then TrimStartShrinks(s[1..]) else s
  }

  /** `split_whitespace`. */
  function Words(s: string): seq<string>
    decreases |s|
  {
    var t := TrimStartShrinks(s);
    if t == "" then [] else [t[..WordLength(t)]] + Words(t[WordLength(t)..])
  }

  predicate NoWhitespace(s: string) {
    forall i :: 0 <= i < |s| ==> !IsWhitespace(s[i])
  }

  // ------------------------------------------------------------------- lemmas

  lemma FindFirst(a: string, c: char, b: string)
    requires c !in a
    ensures Find(a + [c] + b, c) == Some(|a|)
  {
    var s := a + [c] + b;
    assert s[|a|] == c;
    var i := Find(s, c).value;
    assert forall k :: 0 <= k < |a| ==> s[k] == a[k];
    assert forall k :: 0 <= k < i ==> s[..i][k] == s[k];
  }

  lemma LastUnique(s: string, c: char, i: nat, j: nat)
    requires i < |s| && s[i] == c && c !in s[i + 1..]
    requires j < |s| && s[j] == c && c !in s[j + 1..]
    ensures i == j
  {
  }

  lemma FindLastOnly(a: string, c: char, b: string)
    requires c !in b
    ensures FindLast(a + [c] + b, c) == Some(|a|)
  {
    var s := a + [c] + b;
    assert s[|a|] == c && s[|a| + 1..] == b;
    LastUnique(s, c, |a|, FindLast(s, c).value);
  }

  lemma SplitOnceAt(a: string, c: char, b: string)
    requires c !in a
    ensures SplitOnce(a + [c] + b, c) == Some((a, b))
  {
    FindFirst(a, c, b);
    var s := a + [c] + b;
    assert s[..|a|] == a && s[|a| + 1..] == b;
  }

  lemma RSplitOnceAt(a: string, c: char, b: string)
    requires c !in b
    ensures RSplitOnce(a + [c] + b, c) == Some((a, b))
  {
    FindLastOnly(a, c, b);
    var s := a + [c] + b;
    assert s[..|a|] == a && s[|a| + 1..] == b;
  }

  lemma SplitNCons(head: string, c: char, tail: string, n: nat)
    requires c !in head && n > 1
    ensures SplitN(head + [c] + tail, n, c) == [head] + SplitN(tail, n - 1, c)
  {
    FindFirst(head, c, tail);
    var s := head + [c] + tail;
    assert s[|head|] == c && s[..|head|] == head && s[|head| + 1..] == tail;
  }

  lemma SplitCons(head: string, c: char, tail: string)
    requires c !in head
    ensures Split(head + [c] + tail, c) == [head] + Split(tail, c)
  {
    FindFirst(head, c, tail);
    var s := head + [c] + tail;
    assert s[|head|] == c && s[..|head|] == head && s[|head| + 1..] == tail;
  }

  lemma SplitNGlue(text: string, head: string, c: char, tail: string, rest: seq<string>, n: nat)
    requires text == head + [c] + tail && c !in head && n > 1 && SplitN(tail, n - 1, c) == rest
    ensures SplitN(text, n, c) == [head] + rest
  {
    SplitNCons(head, c, tail, n);
  }

  lemma JoinCons(parts: seq<string>, c: char)
    requires |parts| > 1
    ensures Join(parts, c) == parts[0] + [c] + Join(parts[1..], c)
  {
  }

  /** Splitting inverts joining when no part holds the separator. */
  lemma {:induction false} SplitNJoin(parts: seq<string>, n: nat, c: char)
    requires 0 < |parts| <= n
    requires forall i :: 0 <= i < |parts| ==> c !in parts[i]
    ensures SplitN(Join(parts, c), n, c) == parts
  {
    if |parts| == 1 {
      SplitNOne(parts[0], n, c);
      assert parts == [parts[0]];
    } else {
      SplitNJoin(parts[1..], n - 1, c);
      JoinCons(parts, c);
      SplitNGlue(Join(parts, c), parts[0], c, Join(parts[1..], c), parts[1..], n);
      assert parts == [parts[0]] + parts[1..];
    }
  }

  lemma SplitNOne(s: string, n: nat, c: char)
    requires c !in s
    ensures SplitN(s, n, c) == [s]
  {
  }

  lemma {:induction false} SplitJoin(parts: seq<string>, c: char)
    requires parts != []
    requires forall i :: 0 <= i < |parts| ==> c !in parts[i]
    ensures Split(Join(parts, c), c) == parts
  {
    if |parts| > 1 {
      SplitCons(parts[0], c, Join(parts[1..], c));
      SplitJoin(parts[1..], c);
    }
  }

  lemma {:induction false} JoinSplit(s: string, c: char)
    ensures Join(Split(s, c), c) == s
    ensures forall i :: 0 <= i < |Split(s, c)| ==> c !in Split(s, c)[i]
    decreases |s|
  {
    if c in s {
      var i := Find(s, c).value;
      JoinSplit(s[i + 1..], c);
      assert Split(s, c)[1..] == Split(s[i + 1..], c);
      assert s == s[..i] + [c] + s[i + 1..];
    }
  }

  lemma {:induction false} JoinAppend(a: seq<string>, b: seq<string>, c: char)
    requires a != [] && b != []
    ensures Join(a + b, c) == Join(a, c) + [c] + Join(b, c)
    decreases |a|
  {
    if |a| == 1 {
      assert (a + b)[1..] == b;
    } else {
      assert (a + b)[1..] == a[1..] + b;
      JoinAppend(a[1..], b, c);
    }
  }

  lemma SplitAppend(x: string, y: string, c: char)
    ensures Split(x + [c] + y, c) == Split(x, c) + Split(y, c)
  {
    JoinSplit(x, c);
    JoinSplit(y, c);
    JoinAppend(Split(x, c), Split(y, c), c);
    SplitJoin(Split(x, c) + Split(y, c), c);
  }

  lemma TrimNothing(s: string)
    requires s != "" ==> !IsWhitespace(s[0]) && !IsWhitespace(s[|s| - 1])
    ensures Trim(s) == s && TrimStart(s) == s && TrimEnd(s) == s
  {
  }

  lemma {:induction false} TrimStartIsPart(s: string)
    ensures forall c :: c in TrimStart(s) ==> c in s
  {
    if s != "" && IsWhitespace(s[0]) {
      TrimStartIsPart(s[1..]);
      assert s == [s[0]] + s[1..];
    }
  }

  lemma {:induction false} TrimEndIsPart(s: string)
    ensures forall c :: c in TrimEnd(s) ==> c in s
  {
    if s != "" && IsWhitespace(s[|s| - 1]) {
      TrimEndIsPart(s[..|s| - 1]);
      assert s == s[..|s| - 1] + [s[|s| - 1]];
    }
  }

  lemma TrimIsPart(s: string)
    ensures forall c :: c in Trim(s) ==> c in s
  {
    TrimStartIsPart(s);
    TrimEndIsPart(TrimStart(s));
  }

  lemma TrimmedEnds(s: string, c: char)
    ensures var r := TrimMatches(s, Is(c)); r != "" ==> r[0] != c && r[|r| - 1] != c
  {
    TrimmedStart(s, c);
    TrimmedEnd(TrimStartMatches(s, Is(c)), c);
  }

  lemma {:induction false} TrimmedStart(s: string, c: char)
    ensures var r := TrimStartMatches(s, Is(c)); r != "" ==> r[0] != c
  {
    if s != "" && s[0] == c { TrimmedStart(s[1..], c); }
  }

  lemma {:induction false} TrimmedEnd(s: string, c: char)
    ensures var r := TrimEndMatches(s, Is(c)); r != "" ==> r[0] == s[0] && r[|r| - 1] != c
  {
    if s != "" && s[|s| - 1] == c { TrimmedEnd(s[..|s| - 1], c); }
  }

  lemma TrimTwice(s: string, c: char)
    ensures TrimMatches(TrimMatches(s, Is(c)), Is(c)) == TrimMatches(s, Is(c))
  {
    TrimmedEnds(s, c);
  }

  lemma {:induction false} TrimStartSkips(pre: string, s: string, p: char -> bool)
    requires forall i :: 0 <= i < |pre| ==> p(pre[i])
    ensures TrimStartMatches(pre + s, p) == TrimStartMatches(s, p)
  {
    if pre == "" {
      assert pre + s == s;
    } else {
      assert (pre + s)[1..] == pre[1..] + s;
      TrimStartSkips(pre[1..], s, p);
    }
  }

  lemma {:induction false} TrimStartStops(s: string, rest: string, p: char -> bool)
    requires rest != "" && !p(rest[0])
    ensures TrimStartMatches(s + rest, p) == TrimStartMatches(s, p) + rest
  {
    if s == "" {
      assert s + rest == rest;
    } else if p(s[0]) {
      assert (s + rest)[1..] == s[1..] + rest;
      TrimStartStops(s[1..], rest, p);
    }
  }

  lemma {:induction false} TrimEndDrops(s: string, post: string, p: char -> bool)
    requires forall i :: 0 <= i < |post| ==> p(post[i])
    requires s != "" ==> !p(s[|s| - 1])
    ensures TrimEndMatches(s + post, p) == s
  {
    if post == "" {
      assert s + post == s;
    } else {
      assert (s + post)[..|s + post| - 1] == s + post[..|post| - 1];
      TrimEndDrops(s, post[..|post| - 1], p);
    }
  }

  /** A string without some character of the pattern does not contain the pattern. */
  lemma ContainsNeedsAll(s: string, pattern: string, c: char)
    requires c in pattern && c !in s
    ensures !Contains(s, pattern)
  {
    var k :| 0 <= k < |pattern| && pattern[k] == c;
    forall i | 0 <= i <= |s| && i + |pattern| <= |s| ensures !OccursAt(s, pattern, i) {
      assert s[i..i + |pattern|][k] == s[i + k];
    }
  }

  lemma Reassociate(a: string, b: string, c: string)
    ensures a + (b + c) == a + b + c
  {
  }
}
