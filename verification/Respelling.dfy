/** Texts connected by a chain of spelling changes: the equivalence generated by a symmetric relation. */
module Respelling {

  type Change = (string, string) -> bool

  ghost predicate Symmetric(change: Change) {
    forall a, b :: change(a, b) ==> change(b, a)
  }

  ghost predicate Chain(change: Change, xs: seq<string>, a: string, b: string) {
    && xs != [] && xs[0] == a && xs[|xs| - 1] == b
    && forall i :: 0 <= i < |xs| - 1 ==> change(xs[i], xs[i + 1])
  }

  ghost predicate Connected(change: Change, a: string, b: string) {
    exists xs :: Chain(change, xs, a, b)
  }

  lemma Same(change: Change, a: string)
    ensures Connected(change, a, a)
  {
    assert Chain(change, [a], a, a);
  }

  lemma StepFirst(change: Change, a: string, b: string, c: string)
    requires change(a, b) && Connected(change, b, c)
    ensures Connected(change, a, c)
  {
    var xs :| Chain(change, xs, b, c);
    assert Chain(change, [a] + xs, a, c) by {
      forall i | 0 <= i < |[a] + xs| - 1 ensures change(([a] + xs)[i], ([a] + xs)[i + 1]) {
        if i > 0 { assert change(xs[i - 1], xs[i - 1 + 1]); }
      }
    }
  }

  lemma ChainRest(change: Change, xs: seq<string>, a: string, b: string)
    requires Chain(change, xs, a, b) && |xs| > 1
    ensures change(a, xs[1]) && Chain(change, xs[1..], xs[1], b)
  {
    assert change(xs[0], xs[0 + 1]);
    forall i | 0 <= i < |xs[1..]| - 1 ensures change(xs[1..][i], xs[1..][i + 1]) {
      assert change(xs[i + 1], xs[i + 1 + 1]);
    }
  }

  lemma {:induction false} Joined(change: Change, xs: seq<string>, a: string, b: string, c: string)
    requires Chain(change, xs, a, b) && Connected(change, b, c)
    ensures Connected(change, a, c)
    decreases |xs|
  {
    if |xs| > 1 {
      ChainRest(change, xs, a, b);
      Joined(change, xs[1..], xs[1], b, c);
      StepFirst(change, a, xs[1], c);
    }
  }

  lemma Transitive(change: Change, a: string, b: string, c: string)
    requires Connected(change, a, b) && Connected(change, b, c)
    ensures Connected(change, a, c)
  {
    var xs :| Chain(change, xs, a, b);
    Joined(change, xs, a, b, c);
  }

  lemma {:induction false} Turned(change: Change, xs: seq<string>, a: string, b: string, c: string)
    requires Symmetric(change) && Chain(change, xs, a, b) && Connected(change, a, c)
    ensures Connected(change, b, c)
    decreases |xs|
  {
    if |xs| > 1 {
      ChainRest(change, xs, a, b);
      StepFirst(change, xs[1], a, c);
      Turned(change, xs[1..], xs[1], b, c);
    }
  }

  /** Two texts connected to the same third are connected to each other. */
  lemma Meet(change: Change, a: string, b: string, c: string)
    requires Symmetric(change) && Connected(change, a, c) && Connected(change, b, c)
    ensures Connected(change, a, b)
  {
    var ys :| Chain(change, ys, b, c);
    Same(change, b);
    Turned(change, ys, b, c, b);
    Transitive(change, a, c, b);
  }

  /** What no single change alters, no chain alters. */
  lemma {:induction false} Kept<T>(change: Change, value: string -> T, xs: seq<string>, a: string, b: string)
    requires forall x, y :: change(x, y) ==> value(x) == value(y)
    requires Chain(change, xs, a, b)
    ensures value(a) == value(b)
    decreases |xs|
  {
    if |xs| > 1 {
      ChainRest(change, xs, a, b);
      Kept(change, value, xs[1..], xs[1], b);
    }
  }
}
