/** The order of strings, and listing a finite set of strings in that order as a B-tree does. */
module Ordering {

  /** Lexicographic order by character. */
  predicate Less(a: string, b: string) {
    b != "" && (a == "" || a[0] < b[0] || (a[0] == b[0] && Less(a[1..], b[1..])))
  }

  lemma {:induction false} LessTransitive(a: string, b: string, c: string)
    requires Less(a, b) && Less(b, c)
    ensures Less(a, c)
  {
    if a != "" && a[0] == b[0] == c[0] { LessTransitive(a[1..], b[1..], c[1..]); }
  }

  lemma {:induction false} LessIrreflexive(a: string)
    ensures !Less(a, a)
  {
    if a != "" { LessIrreflexive(a[1..]); }
  }

  lemma {:induction false} LessTotal(a: string, b: string)
    ensures a == b || Less(a, b) || Less(b, a)
  {
    if a != "" && b != "" && a[0] == b[0] {
      LessTotal(a[1..], b[1..]);
      assert a == [a[0]] + a[1..] && b == [b[0]] + b[1..];
    }
  }

  predicate Ascending(s: seq<string>) {
    forall i, j :: 0 <= i < j < |s| ==> Less(s[i], s[j])
  }

  /** `r` lists the members of `s` in ascending order, each once. */
  ghost predicate Lists(r: seq<string>, s: set<string>) {
    Ascending(r) && forall x :: x in r <==> x in s
  }

  function Place(r: seq<string>, x: string): seq<string> {
    if r == [] || Less(x, r[0]) then [x] + r else [r[0]] + Place(r[1..], x)
  }

  lemma {:induction false} PlaceLists(r: seq<string>, s: set<string>, x: string)
    requires Lists(r, s) && x !in s
    ensures Lists(Place(r, x), s + {x})
  {
    if r == [] {
    } else if Less(x, r[0]) {
      forall k | 0 <= k < |r| ensures Less(x, r[k]) {
        if k > 0 { LessTransitive(x, r[0], r[k]); }
      }
    } else {
      LessIrreflexive(r[0]);
      LessTotal(x, r[0]);
      assert r[0] in s;
      assert r == [r[0]] + r[1..];
      forall y ensures y in r[1..] <==> y in s - {r[0]} {
        if y in r[1..] {
          var k :| 0 <= k < |r[1..]| && r[1..][k] == y;
          assert r[k + 1] == y && Less(r[0], r[k + 1]);
        }
      }
      PlaceLists(r[1..], s - {r[0]}, x);
      var tail := Place(r[1..], x);
      forall y | y in tail ensures Less(r[0], y) {
        if y != x {
          assert y in r[1..];
          var k :| 0 <= k < |r[1..]| && r[1..][k] == y;
          assert r[k + 1] == y;
        }
      }
      assert Ascending([r[0]] + tail) by {
        forall i, j | 0 <= i < j < |[r[0]] + tail| ensures Less(([r[0]] + tail)[i], ([r[0]] + tail)[j]) {
          if i == 0 { assert tail[j - 1] in tail; }
        }
      }
    }
  }

  /** Enumerates a set in ascending order. */
  method Enumerate(s: set<string>) returns (r: seq<string>)
    ensures Lists(r, s)
  {
    r := [];
    var rest := s;
    while rest != {}
      invariant rest <= s
      invariant Lists(r, s - rest)
    {
      var x :| x in rest;
      PlaceLists(r, s - rest, x);
      r := Place(r, x);
      assert s - rest + {x} == s - (rest - {x});
      rest := rest - {x};
    }
  }

  /** There is only one such listing. */
  lemma {:induction false} ListingUnique(r: seq<string>, q: seq<string>, s: set<string>)
    requires Lists(r, s) && Lists(q, s)
    ensures r == q
  {
    assert r != [] ==> r[0] in s;
    assert q != [] ==> q[0] in s;
    if r != [] && q != [] {
      assert r[0] in q && q[0] in r;
      HeadIsLeast(r, q[0]);
      HeadIsLeast(q, r[0]);
      if r[0] != q[0] {
        LessTransitive(r[0], q[0], r[0]);
        LessIrreflexive(r[0]);
      }
      TailLists(r, s);
      TailLists(q, s);
      ListingUnique(r[1..], q[1..], s - {r[0]});
      assert r == [r[0]] + r[1..] && q == [q[0]] + q[1..];
    }
  }

  lemma HeadIsLeast(r: seq<string>, x: string)
    requires Ascending(r) && x in r
    ensures x == r[0] || Less(r[0], x)
  {
  }

  lemma TailLists(r: seq<string>, s: set<string>)
    requires Lists(r, s) && r != []
    ensures Lists(r[1..], s - {r[0]})
  {
    LessIrreflexive(r[0]);
    assert r == [r[0]] + r[1..];
    forall y ensures y in r[1..] <==> y in s - {r[0]} {
      if y in r[1..] {
        var k :| 0 <= k < |r[1..]| && r[1..][k] == y;
        assert r[k + 1] == y && Less(r[0], r[k + 1]);
      }
    }
  }
}
