/**
 Merging findings of the same package: the CI preflight, which refuses conflicting integrity values,
 and the requirements scan, which drops them.
 */
module Aggregation {
  import opened Wrappers
  import opened Coordinates
  import opened Findings
  import opened Ordering
  import Constraints

  function PurlOf(f: Finding): string {
    Purl(f.coordinate)
  }

  // ------------------------------------------------------- conflict-detecting merge

  function KeySet(key: Finding -> string, fs: seq<Finding>): set<string> {
    set f | f in fs :: key(f)
  }

  /** No two findings of one package contradict each other on the integrity. */
  ghost predicate Consistent(key: Finding -> string, fs: seq<Finding>) {
    forall f, g :: f in fs && g in fs && key(f) == key(g) ==> Constraints.Agree(f.integrity, g.integrity)
  }

  ghost function Integrities(key: Finding -> string, fs: seq<Finding>, k: string): set<string> {
    set f | f in fs && key(f) == k && f.integrity.Some? :: f.integrity.value
  }

  ghost predicate IsFirst(key: Finding -> string, fs: seq<Finding>, k: string, f: Finding) {
    exists i :: 0 <= i < |fs| && fs[i] == f && key(f) == k && forall j :: 0 <= j < i ==> key(fs[j]) != k
  }

  /** `f` is the first finding of the package with the one integrity value present for it, if any. */
  ghost predicate IsMerged(key: Finding -> string, fs: seq<Finding>, k: string, f: Finding) {
    && Constraints.Present(f.integrity) == Integrities(key, fs, k)
    && exists first :: IsFirst(key, fs, k, first) && f == first.(integrity := f.integrity)
  }

  ghost predicate Merged(key: Finding -> string, fs: seq<Finding>, m: map<string, Finding>) {
    m.Keys == KeySet(key, fs) && forall k :: k in m ==> IsMerged(key, fs, k, m[k])
  }

  lemma FirstStays(key: Finding -> string, fs: seq<Finding>, f: Finding, k: string, first: Finding)
    requires IsFirst(key, fs, k, first)
    ensures IsFirst(key, fs + [f], k, first)
  {
    var i :| 0 <= i < |fs| && fs[i] == first && forall j :: 0 <= j < i ==> key(fs[j]) != k;
    assert (fs + [f])[i] == first;
  }

  lemma FirstNew(key: Finding -> string, fs: seq<Finding>, f: Finding)
    requires key(f) !in KeySet(key, fs)
    ensures IsFirst(key, fs + [f], key(f), f)
  {
    forall j | 0 <= j < |fs| ensures key(fs[j]) != key(f) { assert fs[j] in fs; }
    assert (fs + [f])[|fs|] == f;
  }

  lemma IntegritiesStep(key: Finding -> string, fs: seq<Finding>, f: Finding, k: string)
    ensures Integrities(key, fs + [f], k)
         == Integrities(key, fs, k) + if key(f) == k then Constraints.Present(f.integrity) else {}
  {
    assert f in fs + [f];
    assert forall g :: g in fs + [f] <==> g in fs || g == f;
  }

  lemma KeysStep(key: Finding -> string, fs: seq<Finding>, f: Finding)
    ensures KeySet(key, fs + [f]) == KeySet(key, fs) + {key(f)}
  {
    assert f in fs + [f];
    assert forall g :: g in fs + [f] <==> g in fs || g == f;
  }

  /** Agreeing with the merged value is agreeing with every finding merged so far. */
  lemma AgreesWithAll(key: Finding -> string, fs: seq<Finding>, k: string, m: Finding, f: Finding)
    requires IsMerged(key, fs, k, m)
    ensures Constraints.Agree(m.integrity, f.integrity)
       <==> forall g :: g in fs && key(g) == k ==> Constraints.Agree(g.integrity, f.integrity)
  {
    if Constraints.Agree(m.integrity, f.integrity) {
      forall g | g in fs && key(g) == k ensures Constraints.Agree(g.integrity, f.integrity) {
        if g.integrity.Some? { assert g.integrity.value in Integrities(key, fs, k); }
      }
    } else {
      assert m.integrity.value in Integrities(key, fs, k);
    }
  }

  lemma ConsistentStep(key: Finding -> string, fs: seq<Finding>, f: Finding)
    requires Consistent(key, fs)
    ensures Consistent(key, fs + [f])
       <==> forall g :: g in fs && key(g) == key(f) ==> Constraints.Agree(g.integrity, f.integrity)
  {
    assert f in fs + [f];
    assert forall g :: g in fs + [f] <==> g in fs || g == f;
  }

  lemma MergeOther(key: Finding -> string, fs: seq<Finding>, f: Finding, k: string, m: Finding)
    requires IsMerged(key, fs, k, m) && key(f) != k
    ensures IsMerged(key, fs + [f], k, m)
  {
    IntegritiesStep(key, fs, f, k);
    var first :| IsFirst(key, fs, k, first) && m == first.(integrity := m.integrity);
    FirstStays(key, fs, f, k, first);
  }

  lemma MergeSame(key: Finding -> string, fs: seq<Finding>, f: Finding, m: Finding)
    requires IsMerged(key, fs, key(f), m) && Constraints.Agree(m.integrity, f.integrity)
    ensures IsMerged(key, fs + [f], key(f), m.(integrity := Constraints.Join(m.integrity, f.integrity)))
  {
    IntegritiesStep(key, fs, f, key(f));
    var first :| IsFirst(key, fs, key(f), first) && m == first.(integrity := m.integrity);
    FirstStays(key, fs, f, key(f), first);
    var m' := m.(integrity := Constraints.Join(m.integrity, f.integrity));
    assert m' == first.(integrity := m'.integrity);
  }

  lemma MergeNew(key: Finding -> string, fs: seq<Finding>, f: Finding)
    requires key(f) !in KeySet(key, fs)
    ensures IsMerged(key, fs + [f], key(f), f)
  {
    IntegritiesStep(key, fs, f, key(f));
    assert Integrities(key, fs, key(f)) == {};
    FirstNew(key, fs, f);
    assert f == f.(integrity := f.integrity);
  }

  /** What one more finding does to the map; `None` when it conflicts with what is recorded for its package. */
  function PutFinding(key: Finding -> string, m: map<string, Finding>, f: Finding): Option<map<string, Finding>> {
    if key(f) !in m then Some(m[key(f) := f])
    else
      var existing := m[key(f)];
      if Constraints.Agree(existing.integrity, f.integrity)
      then Some(m[key(f) := existing.(integrity := Constraints.Join(existing.integrity, f.integrity))])
      else None
  }

  lemma PutRefusal(key: Finding -> string, fs: seq<Finding>, m: map<string, Finding>, f: Finding)
    requires Consistent(key, fs) && Merged(key, fs, m)
    ensures PutFinding(key, m, f).Some? <==> Consistent(key, fs + [f])
  {
    ConsistentStep(key, fs, f);
    if key(f) in m {
      AgreesWithAll(key, fs, key(f), m[key(f)], f);
    } else {
      forall g | g in fs ensures key(g) != key(f) { assert key(g) in KeySet(key, fs); }
    }
  }

  lemma PutExtends(key: Finding -> string, fs: seq<Finding>, m: map<string, Finding>, f: Finding)
    requires Merged(key, fs, m) && PutFinding(key, m, f).Some?
    ensures Merged(key, fs + [f], PutFinding(key, m, f).value)
  {
    var m' := PutFinding(key, m, f).value;
    KeysStep(key, fs, f);
    forall k | k in m' ensures IsMerged(key, fs + [f], k, m'[k]) {
      if k != key(f) {
        MergeOther(key, fs, f, k, m[k]);
      } else if k in m {
        MergeSame(key, fs, f, m[k]);
      } else {
        MergeNew(key, fs, f);
      }
    }
  }

  method MergeFinding(key: Finding -> string, m: map<string, Finding>, f: Finding) returns (r: Option<map<string, Finding>>)
    ensures r == PutFinding(key, m, f)
  {
    var k := key(f);
    if k in m {
      var existing := m[k];
      if existing.integrity.Some? && f.integrity.Some? && existing.integrity != f.integrity {
        return None;
      }
      if existing.integrity.None? && f.integrity.Some? {
        existing := existing.(integrity := f.integrity);
      }
      return Some(m[k := existing]);
    }
    return Some(m[k := f]);
  }

  function Flatten(inputs: seq<seq<Finding>>): seq<Finding> {
    if inputs == [] then [] else Flatten(inputs[..|inputs| - 1]) + inputs[|inputs| - 1]
  }

  /** One finding per package in package order, each merged from all findings of its package. */
  ghost predicate Aggregates(key: Finding -> string, fs: seq<Finding>, ks: seq<string>, r: seq<Finding>) {
    && Lists(ks, KeySet(key, fs)) && |r| == |ks|
    && forall i :: 0 <= i < |r| ==> IsMerged(key, fs, ks[i], r[i])
  }

  /** Merges one input into the map, starting from what `seen` gave. */
  method MergeInput(key: Finding -> string, m: map<string, Finding>, input: seq<Finding>, ghost seen: seq<Finding>)
    returns (r: Option<map<string, Finding>>)
    requires Consistent(key, seen) && Merged(key, seen, m)
    ensures r.Some? <==> Consistent(key, seen + input)
    ensures r.Some? ==> Merged(key, seen + input, r.value)
  {
    var merged := m;
    assert seen + [] == seen;
    for j := 0 to |input|
      invariant Consistent(key, seen + input[..j]) && Merged(key, seen + input[..j], merged)
    {
      assert seen + input[..j + 1] == seen + input[..j] + [input[j]];
      PutRefusal(key, seen + input[..j], merged, input[j]);
      var next := MergeFinding(key, merged, input[j]);
      if next.None? {
        ConsistentPart(key, seen + input[..j + 1], seen + input);
        return None;
      }
      PutExtends(key, seen + input[..j], merged, input[j]);
      merged := next.value;
    }
    assert input[..|input|] == input;
    return Some(merged);
  }

  lemma ConsistentPart(key: Finding -> string, part: seq<Finding>, whole: seq<Finding>)
    requires forall f :: f in part ==> f in whole
    ensures Consistent(key, whole) ==> Consistent(key, part)
  {
  }

  method AggregateBy(key: Finding -> string, inputs: seq<seq<Finding>>) returns (r: Result<seq<Finding>>, ks: seq<string>)
    ensures r.Ok? <==> Consistent(key, Flatten(inputs))
    ensures r.Ok? ==> Aggregates(key, Flatten(inputs), ks, r.value)
  {
    var merged: map<string, Finding> := map[];
    for i := 0 to |inputs|
      invariant Consistent(key, Flatten(inputs[..i])) && Merged(key, Flatten(inputs[..i]), merged)
    {
      assert inputs[..i + 1][..i] == inputs[..i];
      var next := MergeInput(key, merged, inputs[i], Flatten(inputs[..i]));
      if next.None? {
        forall f | f in Flatten(inputs[..i + 1]) ensures f in Flatten(inputs) { FlattenHolds(inputs, i + 1, f); }
        ConsistentPart(key, Flatten(inputs[..i + 1]), Flatten(inputs));
        return Err, [];
      }
      merged := next.value;
    }
    assert inputs[..|inputs|] == inputs;
    var out;
    ks, out := ListValues(merged);
    r := Ok(out);
  }

  /** The values of a map in the order of its keys. */
  method ListValues(m: map<string, Finding>) returns (ks: seq<string>, out: seq<Finding>)
    ensures Lists(ks, m.Keys) && |out| == |ks|
    ensures forall i :: 0 <= i < |ks| ==> ks[i] in m && out[i] == m[ks[i]]
  {
    ks := Enumerate(m.Keys);
    out := [];
    for i := 0 to |ks|
      invariant |out| == i && forall j :: 0 <= j < i ==> ks[j] in m && out[j] == m[ks[j]]
    {
      assert ks[i] in m.Keys;
      out := out + [m[ks[i]]];
    }
  }

  lemma {:induction false} FlattenHolds(inputs: seq<seq<Finding>>, i: nat, f: Finding)
    requires i <= |inputs| && f in Flatten(inputs[..i])
    ensures f in Flatten(inputs)
    decreases |inputs| - i
  {
    if i < |inputs| {
      assert inputs[..i + 1][..i] == inputs[..i];
      FlattenHolds(inputs, i + 1, f);
    } else {
      assert inputs[..i] == inputs;
    }
  }

  /** The CI preflight: one finding per package URL, or an error on conflicting integrity values. */
  method AggregatePreflight(inputs: seq<seq<Finding>>) returns (r: Result<seq<Finding>>, ks: seq<string>)
    ensures r.Ok? <==> forall f, g :: f in Flatten(inputs) && g in Flatten(inputs) && Purl(f.coordinate) == Purl(g.coordinate) ==>
                         Constraints.Agree(f.integrity, g.integrity)
    ensures r.Ok? ==> Aggregates(PurlOf, Flatten(inputs), ks, r.value)
    ensures r.Ok? ==> Lists(ks, set f | f in Flatten(inputs) :: Purl(f.coordinate))
    ensures r.Ok? ==> forall i :: 0 <= i < |ks| ==> Purl(r.value[i].coordinate) == ks[i]
  {
    r, ks := AggregateBy(PurlOf, inputs);
    KeysArePurls(Flatten(inputs));
  }

  lemma KeysArePurls(fs: seq<Finding>)
    ensures KeySet(PurlOf, fs) == set f | f in fs :: Purl(f.coordinate)
    ensures Consistent(PurlOf, fs) <==>
              forall f, g :: f in fs && g in fs && Purl(f.coordinate) == Purl(g.coordinate) ==> Constraints.Agree(f.integrity, g.integrity)
    ensures forall k, f :: IsFirst(PurlOf, fs, k, f) ==> Purl(f.coordinate) == k
  {
    assert forall f :: PurlOf(f) == Purl(f.coordinate);
  }

  /** Success, the packages listed and their integrity values do not depend on the order of the findings. */
  lemma AggregationOrderFree(key: Finding -> string, xs: seq<Finding>, ys: seq<Finding>,
                             kx: seq<string>, rx: seq<Finding>, ky: seq<string>, ry: seq<Finding>)
    requires forall f :: f in xs <==> f in ys
    ensures Consistent(key, xs) <==> Consistent(key, ys)
    ensures Aggregates(key, xs, kx, rx) && Aggregates(key, ys, ky, ry) ==>
              kx == ky && |rx| == |ry| && forall i :: 0 <= i < |rx| ==> rx[i].integrity == ry[i].integrity
  {
    if Aggregates(key, xs, kx, rx) && Aggregates(key, ys, ky, ry) {
      assert KeySet(key, xs) == KeySet(key, ys);
      ListingUnique(kx, ky, KeySet(key, xs));
      forall i | 0 <= i < |rx| ensures rx[i].integrity == ry[i].integrity {
        assert Integrities(key, xs, kx[i]) == Integrities(key, ys, kx[i]);
        assert rx[i].integrity.Some? ==> rx[i].integrity.value in Constraints.Present(ry[i].integrity);
        assert ry[i].integrity.Some? ==> ry[i].integrity.value in Constraints.Present(rx[i].integrity);
      }
    }
  }

  // ---------------------------------------------------------- conflict-dropping merge

  function MergeOptional(a: Option<string>, b: Option<string>): Option<string> {
    if a.Some? && b.Some? then (if a == b then a else None)
    else if a.Some? then a else b
  }

  /** What the deduplication holds for a package after seeing these values in turn. */
  function FoldMerge(held: Option<string>, values: seq<Option<string>>): Option<string>
    decreases |values|
  {
    if values == [] then held else FoldMerge(MergeOptional(held, values[0]), values[1..])
  }

  function Presents(values: seq<Option<string>>): seq<string> {
    if values == [] then [] else Listed(values[0]) + Presents(values[1..])
  }

  function Listed(o: Option<string>): seq<string> {
    if o.Some? then [o.value] else []
  }

  function RunLength(vs: seq<string>): (n: nat)
    requires vs != []
    ensures 1 <= n <= |vs| && (forall i :: 0 <= i < n ==> vs[i] == vs[0]) && (n < |vs| ==> vs[n] != vs[0])
  {
    if |vs| == 1 || vs[1] != vs[0] then 1 else 1 + RunLength(vs[1..])
  }

  /**
   Runs cancel: a maximal run of one value and the different value that ends it annihilate each
   other, and what survives is the value of a last run that nothing ends.
   */
  function Surviving(vs: seq<string>): Option<string>
    decreases |vs|
  {
    if vs == [] then None
    else
      var n := RunLength(vs);
      if n == |vs| then Some(vs[0]) else Surviving(vs[n + 1..])
  }

  lemma SurvivingRepeats(v: string, rest: seq<string>)
    ensures Surviving([v, v] + rest) == Surviving([v] + rest)
  {
    var long, short := [v, v] + rest, [v] + rest;
    assert long[1..] == short;
    var n := RunLength(short);
    assert RunLength(long) == n + 1;
    if n < |short| { assert long[n + 2..] == short[n + 1..]; }
  }

  lemma SurvivingCancels(v: string, w: string, rest: seq<string>)
    requires v != w
    ensures Surviving([v, w] + rest) == Surviving(rest)
  {
    var vs := [v, w] + rest;
    assert RunLength(vs) == 1 && vs[2..] == rest;
  }

  lemma SurvivingMerge(held: Option<string>, o: Option<string>, rest: seq<string>)
    ensures Surviving(Listed(held) + (Listed(o) + rest)) == Surviving(Listed(MergeOptional(held, o)) + rest)
  {
    if held.Some? && o.Some? {
      var v, w := held.value, o.value;
      assert [v] + ([w] + rest) == [v, w] + rest;
      if v == w {
        SurvivingRepeats(v, rest);
      } else {
        SurvivingCancels(v, w, rest);
        assert [] + rest == rest;
      }
    } else {
      assert Listed(held) + (Listed(o) + rest) == Listed(MergeOptional(held, o)) + rest;
    }
  }

  /** The fold of pairwise merges is cancellation of runs, for every sequence of values. */
  lemma {:induction false} FoldIsSurviving(held: Option<string>, values: seq<Option<string>>)
    ensures FoldMerge(held, values) == Surviving(Listed(held) + Presents(values))
    decreases |values|
  {
    if values == [] {
      assert Listed(held) + [] == Listed(held);
    } else {
      FoldIsSurviving(MergeOptional(held, values[0]), values[1..]);
      SurvivingMerge(held, values[0], Presents(values[1..]));
    }
  }

  /** When all present values agree, the value is kept. */
  lemma AgreedValueKept(values: seq<Option<string>>, v: string)
    requires Presents(values) != [] && forall i :: 0 <= i < |Presents(values)| ==> Presents(values)[i] == v
    ensures FoldMerge(None, values) == Some(v)
  {
    FoldIsSurviving(None, values);
    assert [] + Presents(values) == Presents(values);
  }

  /** A third value survives a conflict between two others: merging is not associative. */
  lemma ConflictForgotten(a: string, b: string, c: string)
    requires a != b && b != c
    ensures FoldMerge(None, [Some(a), Some(b), Some(c)]) == Some(c)
    ensures MergeOptional(Some(a), MergeOptional(Some(b), Some(c))) == Some(a)
  {
    var values := [Some(a), Some(b), Some(c)];
    FoldIsSurviving(None, values);
    assert values[1..] == [Some(b), Some(c)] && values[1..][1..] == [Some(c)];
    assert Presents([Some(c)]) == [c] by { assert [Some(c)][1..] == []; }
    assert [] + Presents(values) == [a, b] + [c];
    SurvivingCancels(a, b, [c]);
    assert RunLength([c]) == 1;
  }

  function ValuesOf(key: Finding -> string, fs: seq<Finding>, k: string): seq<Option<string>> {
    if fs == [] then []
    else ValuesOf(key, fs[..|fs| - 1], k) + if key(fs[|fs| - 1]) == k then [fs[|fs| - 1].integrity] else []
  }

  lemma {:induction false} FoldMergeAppend(held: Option<string>, values: seq<Option<string>>, o: Option<string>)
    ensures FoldMerge(held, values + [o]) == MergeOptional(FoldMerge(held, values), o)
    decreases |values|
  {
    if values == [] {
      assert values + [o] == [o] && [o][1..] == [];
    } else {
      assert (values + [o])[1..] == values[1..] + [o];
      FoldMergeAppend(MergeOptional(held, values[0]), values[1..], o);
    }
  }

  ghost predicate IsDeduped(key: Finding -> string, fs: seq<Finding>, k: string, f: Finding) {
    && f.integrity == FoldMerge(None, ValuesOf(key, fs, k))
    && exists first :: IsFirst(key, fs, k, first) && f == first.(integrity := f.integrity)
  }

  ghost predicate Deduped(key: Finding -> string, fs: seq<Finding>, m: map<string, Finding>) {
    m.Keys == KeySet(key, fs) && forall k :: k in m ==> IsDeduped(key, fs, k, m[k])
  }

  lemma {:induction false} NoValues(key: Finding -> string, fs: seq<Finding>, k: string)
    requires k !in KeySet(key, fs)
    ensures ValuesOf(key, fs, k) == []
  {
    if fs != [] {
      var last := fs[|fs| - 1];
      assert last in fs && fs == fs[..|fs| - 1] + [last];
      KeysStep(key, fs[..|fs| - 1], last);
      NoValues(key, fs[..|fs| - 1], k);
    }
  }

  lemma DedupeStep(key: Finding -> string, fs: seq<Finding>, f: Finding, k: string, m: Finding, m': Finding)
    requires IsDeduped(key, fs, k, m)
    requires m' == if key(f) == k then m.(integrity := MergeOptional(m.integrity, f.integrity)) else m
    ensures IsDeduped(key, fs + [f], k, m')
  {
    var first :| IsFirst(key, fs, k, first) && m == first.(integrity := m.integrity);
    FirstStays(key, fs, f, k, first);
    assert m' == first.(integrity := m'.integrity);
    assert (fs + [f])[..|fs|] == fs;
    FoldMergeAppend(None, ValuesOf(key, fs, k), f.integrity);
    assert ValuesOf(key, fs, k) + [] == ValuesOf(key, fs, k);
  }

  lemma DedupeNew(key: Finding -> string, fs: seq<Finding>, f: Finding)
    requires key(f) !in KeySet(key, fs)
    ensures IsDeduped(key, fs + [f], key(f), f)
  {
    NoValues(key, fs, key(f));
    FirstNew(key, fs, f);
    assert f == f.(integrity := f.integrity);
    assert (fs + [f])[..|fs|] == fs;
    assert ValuesOf(key, fs + [f], key(f)) == [f.integrity];
    assert [f.integrity][1..] == [];
  }

  function DedupePut(key: Finding -> string, m: map<string, Finding>, f: Finding): map<string, Finding> {
    var k := key(f);
    m[k := if k in m then m[k].(integrity := MergeOptional(m[k].integrity, f.integrity)) else f]
  }

  lemma DedupeMap(key: Finding -> string, fs: seq<Finding>, f: Finding, m: map<string, Finding>)
    requires Deduped(key, fs, m)
    ensures Deduped(key, fs + [f], DedupePut(key, m, f))
  {
    var m' := DedupePut(key, m, f);
    KeysStep(key, fs, f);
    forall k | k in m' ensures IsDeduped(key, fs + [f], k, m'[k]) {
      if k in m {
        DedupeStep(key, fs, f, k, m[k], m'[k]);
      } else {
        DedupeNew(key, fs, f);
      }
    }
  }

  method DedupeOne(key: Finding -> string, m: map<string, Finding>, f: Finding) returns (r: map<string, Finding>)
    ensures r == DedupePut(key, m, f)
  {
    var k := key(f);
    if k in m {
      r := m[k := m[k].(integrity := MergeOptional(m[k].integrity, f.integrity))];
    } else {
      r := m[k := f];
    }
  }

  /** Deduplication holds, per package, the fold of its integrity values in order. */
  method DedupeBy(key: Finding -> string, fs: seq<Finding>) returns (m: map<string, Finding>)
    ensures Deduped(key, fs, m)
  {
    m := map[];
    DedupeNothing(key, fs[..0]);
    for i := 0 to |fs|
      invariant Deduped(key, fs[..i], m)
    {
      DedupePrefix(key, fs, i, m);
      m := DedupeOne(key, m, fs[i]);
    }
    assert fs[..|fs|] == fs;
  }

  lemma DedupeNothing(key: Finding -> string, fs: seq<Finding>)
    requires fs == []
    ensures Deduped(key, fs, map[])
  {
  }

  lemma DedupePrefix(key: Finding -> string, fs: seq<Finding>, i: nat, m: map<string, Finding>)
    requires i < |fs| && Deduped(key, fs[..i], m)
    ensures Deduped(key, fs[..i + 1], DedupePut(key, m, fs[i]))
  {
    var front := fs[..i];
    assert fs[..i + 1] == front + [fs[i]];
    DedupeMap(key, front, fs[i], m);
  }

  /** One finding per package in package order, each deduplicated from all findings of its package. */
  ghost predicate Deduplicates(key: Finding -> string, fs: seq<Finding>, ks: seq<string>, r: seq<Finding>) {
    && Lists(ks, KeySet(key, fs)) && |r| == |ks|
    && forall i :: 0 <= i < |r| ==> IsDeduped(key, fs, ks[i], r[i])
  }

  method ListDeduped(key: Finding -> string, fs: seq<Finding>) returns (r: seq<Finding>, ks: seq<string>)
    ensures Deduplicates(key, fs, ks, r)
  {
    var m := DedupeBy(key, fs);
    ks, r := ListValues(m);
  }

  /** The requirements scan deduplicates by package URL. */
  method DedupeFindings(fs: seq<Finding>) returns (r: seq<Finding>, ks: seq<string>)
    ensures Deduplicates(PurlOf, fs, ks, r)
    ensures Lists(ks, set f | f in fs :: Purl(f.coordinate))
    ensures forall i :: 0 <= i < |ks| ==> Purl(r[i].coordinate) == ks[i]
  {
    KeysArePurls(fs);
    r, ks := ListDeduped(PurlOf, fs);
  }
}
