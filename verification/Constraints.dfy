/**
 Requirement entries and the constraint map built from `-c` files: how constraint lines
 are merged, when they conflict, and what applying them to an entry gives.
 */
module Constraints {
  import opened Wrappers

  datatype Algorithm = Sha256 | Sha512
  datatype Hash = Hash(algorithm: Algorithm, digest: string)

  /** One parsed requirement; `eligible` is false for direct references and editables. */
  datatype Entry = Entry(
    name: string,
    version: Option<string>,
    hash: Option<Hash>,
    integrity: Option<string>,
    eligible: bool)

  type ConstraintMap = map<string, Entry>

  // ---------------------------------------------------------------- the join

  /** Two optional values do not contradict each other. */
  predicate Agree<T(==)>(a: Option<T>, b: Option<T>) {
    a.Some? && b.Some? ==> a == b
  }

  predicate Compatible(a: Entry, b: Entry) {
    Agree(a.version, b.version) && Agree(a.hash, b.hash) && Agree(a.integrity, b.integrity)
  }

  function Join<T>(a: Option<T>, b: Option<T>): Option<T> {
    if a.Some? then a else b
  }

  function JoinEntry(a: Entry, b: Entry): Entry {
    a.(version := Join(a.version, b.version),
       hash := Join(a.hash, b.hash),
       integrity := Join(a.integrity, b.integrity))
  }

  /** All lines may serve as constraints, and no two lines of one name contradict each other. */
  ghost predicate Consistent(lines: set<Entry>) {
    && (forall a :: a in lines ==> a.eligible)
    && (forall a, b :: a in lines && b in lines && a.name == b.name ==> Compatible(a, b))
  }

  function Present<T>(o: Option<T>): set<T> {
    if o.Some? then {o.value} else {}
  }

  ghost function Versions(lines: set<Entry>, name: string): set<string> {
    set a | a in lines && a.name == name && a.version.Some? :: a.version.value
  }

  ghost function Hashes(lines: set<Entry>, name: string): set<Hash> {
    set a | a in lines && a.name == name && a.hash.Some? :: a.hash.value
  }

  ghost function Integrities(lines: set<Entry>, name: string): set<string> {
    set a | a in lines && a.name == name && a.integrity.Some? :: a.integrity.value
  }

  /** `e` holds, field by field, exactly the values present in the lines named `e.name`. */
  ghost predicate IsJoinOf(lines: set<Entry>, e: Entry) {
    && Present(e.version) == Versions(lines, e.name)
    && Present(e.hash) == Hashes(lines, e.name)
    && Present(e.integrity) == Integrities(lines, e.name)
  }

  /** `m` is the pointwise join of the lines: one entry per name, nothing added, nothing lost. */
  ghost predicate IsJoinMap(lines: set<Entry>, m: ConstraintMap) {
    && m.Keys == (set a | a in lines :: a.name)
    && forall n :: n in m ==> m[n].name == n && m[n].eligible && IsJoinOf(lines, m[n])
  }

  // ------------------------------------------------------ inserting one line

  /** What inserting one constraint line does to the map, or `None` when the tool stops. */
  function Insert(m: ConstraintMap, c: Entry): Option<ConstraintMap> {
    if !c.eligible then None
    else if c.name !in m then Some(m[c.name := c])
    else if Compatible(m[c.name], c) then Some(m[c.name := JoinEntry(m[c.name], c)])
    else None
  }

  /** Folds a sequence of constraint lines, stopping at the first one that is refused. */
  function Accumulate(lines: seq<Entry>): Option<ConstraintMap> {
    if lines == [] then Some(map[])
    else
      var m :- Accumulate(lines[..|lines| - 1]);
      Insert(m, lines[|lines| - 1])
  }

  function LineSet(lines: seq<Entry>): set<Entry> {
    set a | a in lines
  }

  /** The values of one more line are added to those already present under its name only. */
  lemma ValuesOfInsertion(lines: set<Entry>, c: Entry, name: string)
    ensures Versions(lines + {c}, name) == Versions(lines, name) + if c.name == name then Present(c.version) else {}
    ensures Hashes(lines + {c}, name) == Hashes(lines, name) + if c.name == name then Present(c.hash) else {}
    ensures Integrities(lines + {c}, name) == Integrities(lines, name) + if c.name == name then Present(c.integrity) else {}
  {
    assert c in lines + {c};
  }

  lemma JoinOfExtends(lines: set<Entry>, e: Entry, c: Entry)
    requires IsJoinOf(lines, e) && c.name == e.name && Compatible(e, c)
    ensures IsJoinOf(lines + {c}, JoinEntry(e, c))
  {
    ValuesOfInsertion(lines, c, e.name);
  }

  lemma OtherNamesKeepJoin(lines: set<Entry>, e: Entry, c: Entry)
    requires IsJoinOf(lines, e) && c.name != e.name
    ensures IsJoinOf(lines + {c}, e)
  {
    ValuesOfInsertion(lines, c, e.name);
  }

  lemma SingletonJoin(lines: set<Entry>, c: Entry)
    requires forall a :: a in lines ==> a.name != c.name
    ensures IsJoinOf(lines + {c}, c)
  {
    ValuesOfInsertion(lines, c, c.name);
  }

  /** Being compatible with a join is being compatible with every line that went into it. */
  lemma CompatibleWithJoin(lines: set<Entry>, e: Entry, c: Entry)
    requires IsJoinOf(lines, e)
    ensures Compatible(e, c) <==> forall a :: a in lines && a.name == e.name ==> Compatible(a, c)
  {
    if Compatible(e, c) {
      forall a | a in lines && a.name == e.name ensures Compatible(a, c) {
        if a.version.Some? { assert a.version.value in Versions(lines, e.name); }
        if a.hash.Some? { assert a.hash.value in Hashes(lines, e.name); }
        if a.integrity.Some? { assert a.integrity.value in Integrities(lines, e.name); }
      }
    } else if !Agree(e.version, c.version) {
      assert e.version.value in Versions(lines, e.name);
    } else if !Agree(e.hash, c.hash) {
      assert e.hash.value in Hashes(lines, e.name);
    } else {
      assert e.integrity.value in Integrities(lines, e.name);
    }
  }

  /** One insertion is refused exactly when the line breaks consistency. */
  lemma InsertRefusal(lines: set<Entry>, m: ConstraintMap, c: Entry)
    requires Consistent(lines) && IsJoinMap(lines, m)
    ensures Insert(m, c).Some? <==> Consistent(lines + {c})
  {
    assert c in lines + {c};
    if c.name in m {
      CompatibleWithJoin(lines, m[c.name], c);
    } else {
      forall a | a in lines ensures a.name != c.name { assert a.name in m.Keys; }
    }
  }

  /** An insertion that is not refused extends the join by its line. */
  lemma InsertExtends(lines: set<Entry>, m: ConstraintMap, c: Entry)
    requires IsJoinMap(lines, m) && Insert(m, c).Some?
    ensures IsJoinMap(lines + {c}, Insert(m, c).value)
  {
    var m' := Insert(m, c).value;
    forall n | n in m' ensures m'[n].name == n && m'[n].eligible && IsJoinOf(lines + {c}, m'[n]) {
      InsertedEntry(lines, m, c, n);
    }
    assert m'.Keys == m.Keys + {c.name};
    NamesOfInsertion(lines, c);
  }

  lemma NamesOfInsertion(lines: set<Entry>, c: Entry)
    ensures (set a | a in lines + {c} :: a.name) == (set a | a in lines :: a.name) + {c.name}
  {
    assert c in lines + {c};
  }

  lemma InsertedEntry(lines: set<Entry>, m: ConstraintMap, c: Entry, n: string)
    requires IsJoinMap(lines, m) && Insert(m, c).Some? && n in Insert(m, c).value
    ensures var e := Insert(m, c).value[n]; e.name == n && e.eligible && IsJoinOf(lines + {c}, e)
  {
    if n != c.name {
      OtherNamesKeepJoin(lines, m[n], c);
    } else if n in m {
      JoinOfExtends(lines, m[n], c);
    } else {
      forall a | a in lines ensures a.name != c.name { assert a.name in m.Keys; }
      SingletonJoin(lines, c);
    }
  }

  // ------------------------------------------------------------- confluence

  /** Accumulation succeeds exactly on consistent lines and then yields their pointwise join. */
  lemma {:induction false} AccumulateIsJoin(lines: seq<Entry>)
    ensures Accumulate(lines).Some? <==> Consistent(LineSet(lines))
    ensures Accumulate(lines).Some? ==> IsJoinMap(LineSet(lines), Accumulate(lines).value)
  {
    if lines != [] {
      var front, c := lines[..|lines| - 1], lines[|lines| - 1];
      AccumulateIsJoin(front);
      assert LineSet(lines) == LineSet(front) + {c} by { assert lines == front + [c]; }
      if Accumulate(front).Some? {
        InsertRefusal(LineSet(front), Accumulate(front).value, c);
        if Accumulate(lines).Some? { InsertExtends(LineSet(front), Accumulate(front).value, c); }
      }
    }
  }

  lemma JoinUnique(lines: set<Entry>, e: Entry, e': Entry)
    requires IsJoinOf(lines, e) && IsJoinOf(lines, e')
    requires e.name == e'.name && e.eligible == e'.eligible
    ensures e == e'
  {
    if e.version.Some? { assert e.version.value in Present(e'.version); }
    if e.hash.Some? { assert e.hash.value in Present(e'.hash); }
    if e.integrity.Some? { assert e.integrity.value in Present(e'.integrity); }
  }

  lemma JoinMapUnique(lines: set<Entry>, m: ConstraintMap, m': ConstraintMap)
    requires IsJoinMap(lines, m) && IsJoinMap(lines, m')
    ensures m == m'
  {
    assert m.Keys == m'.Keys;
    forall n | n in m ensures m[n] == m'[n] {
      assert n in m'.Keys;
      JoinUnique(lines, m[n], m'[n]);
    }
  }

  /** The outcome depends only on which lines occur: not on their order, not on repetitions. */
  lemma AccumulateConfluent(xs: seq<Entry>, ys: seq<Entry>)
    requires LineSet(xs) == LineSet(ys)
    ensures Accumulate(xs) == Accumulate(ys)
  {
    AccumulateIsJoin(xs);
    AccumulateIsJoin(ys);
    if Accumulate(xs).Some? {
      JoinMapUnique(LineSet(xs), Accumulate(xs).value, Accumulate(ys).value);
    }
  }

  // ---------------------------------------------------------------- applying

  /** Tightens one collected entry by the constraint of its name, or refuses a contradiction. */
  method ApplyConstraints(input: Entry, constraints: ConstraintMap) returns (r: Result<Entry>)
    ensures r == Applied(input, constraints)
  {
    var entry := input;
    if !entry.eligible { return Ok(entry); }
    if entry.name !in constraints { return Ok(entry); }
    var constraint := constraints[entry.name];
    if !Compatible(entry, constraint) { return Err; }
    if entry.version.None? {
      entry := entry.(version := constraint.version);
    }
    if entry.hash.None? && (constraint.version.None? || constraint.version == entry.version) {
      entry := entry.(hash := constraint.hash);
    }
    if entry.integrity.None? && (constraint.version.None? || constraint.version == entry.version) {
      entry := entry.(integrity := constraint.integrity);
    }
    return Ok(entry);
  }

  /** The join that `ApplyConstraints` computes; its version guards never hold anything back. */
  function Applied(entry: Entry, constraints: ConstraintMap): Result<Entry> {
    if !entry.eligible || entry.name !in constraints then Ok(entry)
    else if Compatible(entry, constraints[entry.name]) then Ok(JoinEntry(entry, constraints[entry.name]))
    else Err
  }

  /** `e'` is `e` with every absent field filled by the value the lines of its name agree on. */
  ghost predicate Tightened(lines: set<Entry>, e: Entry, e': Entry) {
    && e'.name == e.name && e'.eligible == e.eligible
    && (!e.eligible ==> e' == e)
    && (e.eligible ==> IsJoinOf(lines + {e}, e'))
  }

  /** Applying the join map of some lines is joining the entry with those lines directly. */
  lemma AppliedIsJoin(lines: set<Entry>, m: ConstraintMap, e: Entry)
    requires IsJoinMap(lines, m)
    ensures Applied(e, m).Ok? <==> !e.eligible || forall a :: a in lines && a.name == e.name ==> Compatible(a, e)
    ensures Applied(e, m).Ok? ==> Tightened(lines, e, Applied(e, m).value)
  {
    if e.eligible {
      if e.name in m {
        CompatibleWithJoin(lines, m[e.name], e);
        if Compatible(m[e.name], e) {
          JoinOfExtends(lines, m[e.name], e);
          assert JoinEntry(e, m[e.name]) == JoinEntry(m[e.name], e).(eligible := e.eligible);
        }
      } else {
        forall a | a in lines ensures a.name != e.name { assert a.name in m.Keys; }
        SingletonJoin(lines, e);
      }
    }
  }

  lemma AppliedIdempotent(e: Entry, m: ConstraintMap)
    requires Applied(e, m).Ok?
    ensures Applied(Applied(e, m).value, m) == Applied(e, m)
  {
  }
}
