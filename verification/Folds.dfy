/** Folding and mapping over a sequence. */
module Folds {

  function Fold<M, T>(step: (M, T) -> M, m: M, items: seq<T>): M
    decreases |items|
  {
    if items == [] then m else Fold(step, step(m, items[0]), items[1..])
  }

  lemma {:induction false} FoldAppend<M, T>(step: (M, T) -> M, m: M, a: seq<T>, b: seq<T>)
    ensures Fold(step, m, a + b) == Fold(step, Fold(step, m, a), b)
    decreases |a|
  {
    if a == [] {
      assert a + b == b;
    } else {
      FoldAppend(step, step(m, a[0]), a[1..], b);
      assert (a + b)[1..] == a[1..] + b;
    }
  }

  function FlatMap<S, T>(f: S -> seq<T>, items: seq<S>): seq<T> {
    if items == [] then [] else f(items[0]) + FlatMap(f, items[1..])
  }

  lemma {:induction false} FlatMapAppend<S, T>(f: S -> seq<T>, a: seq<S>, b: seq<S>)
    ensures FlatMap(f, a + b) == FlatMap(f, a) + FlatMap(f, b)
  {
    if a == [] {
      assert a + b == b;
    } else {
      FlatMapAppend(f, a[1..], b);
      assert (a + b)[1..] == a[1..] + b;
    }
  }

  lemma FlatMapSnoc<S, T>(f: S -> seq<T>, items: seq<S>, i: nat)
    requires i < |items|
    ensures FlatMap(f, items[..i + 1]) == FlatMap(f, items[..i]) + f(items[i])
  {
    FlatMapAppend(f, items[..i], [items[i]]);
    assert items[..i + 1] == items[..i] + [items[i]];
    assert FlatMap(f, [items[i]]) == f(items[i]) + FlatMap(f, []);
  }

  lemma {:induction false} FlatMapNone<S, T>(f: S -> seq<T>, items: seq<S>)
    requires forall i :: 0 <= i < |items| ==> f(items[i]) == []
    ensures FlatMap(f, items) == []
  {
    if items != [] {
      FlatMapNone(f, items[1..]);
    }
  }

  /** The sum of a weight over a sequence. */
  function Total<T>(weight: T -> nat, items: seq<T>): nat {
    if items == [] then 0 else Total(weight, items[..|items| - 1]) + weight(items[|items| - 1])
  }

  lemma {:induction false} TotalConcat<T>(weight: T -> nat, a: seq<T>, b: seq<T>)
    ensures Total(weight, a + b) == Total(weight, a) + Total(weight, b)
  {
    if b == [] {
      assert a + b == a;
    } else {
      TotalConcat(weight, a, b[..|b| - 1]);
      assert (a + b)[..|a + b| - 1] == a + b[..|b| - 1];
    }
  }

  lemma TotalFrom<T>(weight: T -> nat, items: seq<T>, i: nat)
    requires i < |items|
    ensures Total(weight, items[i..]) == weight(items[i]) + Total(weight, items[i + 1..])
  {
    TotalConcat(weight, [items[i]], items[i + 1..]);
    assert items[i..] == [items[i]] + items[i + 1..];
    assert Total(weight, [items[i]]) == Total(weight, []) + weight(items[i]);
  }

  /** Two sequences side by side: the weight of one item is what two weights of the other add up to. */
  lemma {:induction false} TotalSplits<S, T>(whole: S -> nat, part: S -> nat, rest: T -> nat, items: seq<S>,
                                             others: seq<T>)
    requires |items| == |others|
    requires forall i :: 0 <= i < |items| ==> whole(items[i]) == part(items[i]) + rest(others[i])
    ensures Total(whole, items) == Total(part, items) + Total(rest, others)
  {
    if items != [] {
      TotalSplits(whole, part, rest, items[..|items| - 1], others[..|others| - 1]);
    }
  }

  lemma {:induction false} TotalSame<S, T>(one: S -> nat, other: T -> nat, items: seq<S>, others: seq<T>)
    requires |items| == |others| && forall i :: 0 <= i < |items| ==> one(items[i]) == other(others[i])
    ensures Total(one, items) == Total(other, others)
  {
    if items != [] {
      TotalSame(one, other, items[..|items| - 1], others[..|others| - 1]);
    }
  }
}
