/** Order-preserving selection from a sequence. */
module Seqs {

  /** `a` is obtained from `b` by deleting elements, keeping the order of the rest. */
  predicate IsSubsequence<T(==)>(a: seq<T>, b: seq<T>)
    decreases |b|
  {
    if b == [] then a == []
    else (a != [] && a[0] == b[0] && IsSubsequence(a[1..], b[1..])) || IsSubsequence(a, b[1..])
  }

  lemma {:induction false} SubsequenceMembers<T>(a: seq<T>, b: seq<T>)
    requires IsSubsequence(a, b)
    ensures |a| <= |b|
    ensures forall x :: x in a ==> x in b
    decreases |b|
  {
    if b != [] {
      if a != [] && a[0] == b[0] && IsSubsequence(a[1..], b[1..]) {
        SubsequenceMembers(a[1..], b[1..]);
        assert forall x :: x in a ==> x == a[0] || x in a[1..];
      } else {
        SubsequenceMembers(a, b[1..]);
      }
    }
  }

  lemma {:induction false} SubsequenceOfItself<T>(a: seq<T>)
    ensures IsSubsequence(a, a)
    decreases |a|
  {
    if a != [] {
      SubsequenceOfItself(a[1..]);
    }
  }

  /** `xs.filter(keep)`. */
  function Filter<T(==,!new)>(xs: seq<T>, keep: T -> bool): (kept: seq<T>)
    ensures forall x :: x in kept <==> x in xs && keep(x)
  {
    if xs == [] then []
    else
      var rest := Filter(xs[1..], keep);
      assert forall x :: x in xs <==> x == xs[0] || x in xs[1..];
      if keep(xs[0]) then [xs[0]] + rest else rest
  }

  /** `Filter` keeps every copy of a kept element and no copy of a rejected one. */
  lemma {:induction false} FilterCounts<T(!new)>(xs: seq<T>, keep: T -> bool)
    ensures forall x :: multiset(Filter(xs, keep))[x] == if keep(x) then multiset(xs)[x] else 0
  {
    if xs != [] {
      FilterCounts(xs[1..], keep);
      assert xs == [xs[0]] + xs[1..];
      assert multiset(xs) == multiset{xs[0]} + multiset(xs[1..]);
    }
  }

  /** What `Filter` keeps is in the order of `xs`. */
  lemma {:induction false} FilterIsSubsequence<T(!new)>(xs: seq<T>, keep: T -> bool)
    ensures IsSubsequence(Filter(xs, keep), xs)
    decreases |xs|
  {
    if xs != [] {
      FilterIsSubsequence(xs[1..], keep);
      var rest := Filter(xs[1..], keep);
      if keep(xs[0]) {
        assert ([xs[0]] + rest)[0] == xs[0] && ([xs[0]] + rest)[1..] == rest;
      }
    }
  }

  /** Keeping every element changes nothing. */
  lemma {:induction false} FilterKeepsAll<T(!new)>(xs: seq<T>, keep: T -> bool)
    requires forall k :: 0 <= k < |xs| ==> keep(xs[k])
    ensures Filter(xs, keep) == xs
    decreases |xs|
  {
    if xs != [] {
      FilterKeepsAll(xs[1..], keep);
    }
  }

  /** Filtering again keeps everything the first filter kept. */
  lemma FilterIdempotent<T(!new)>(xs: seq<T>, keep: T -> bool)
    ensures Filter(Filter(xs, keep), keep) == Filter(xs, keep)
  {
    var kept := Filter(xs, keep);
    assert forall k :: 0 <= k < |kept| ==> kept[k] in kept;
    FilterKeepsAll(kept, keep);
  }

  /** Filtering behind a first element. */
  lemma FilterCons<T(!new)>(x: T, xs: seq<T>, keep: T -> bool)
    ensures Filter([x] + xs, keep) == (if keep(x) then [x] else []) + Filter(xs, keep)
  {
    var ys := [x] + xs;
    assert ys[0] == x && ys[1..] == xs;
  }

  /** Filtering a concatenation filters each part. */
  lemma {:induction false} FilterAppend<T(!new)>(xs: seq<T>, ys: seq<T>, keep: T -> bool)
    ensures Filter(xs + ys, keep) == Filter(xs, keep) + Filter(ys, keep)
    decreases |xs|
  {
    if xs == [] {
      assert xs + ys == ys;
    } else {
      var x, rest := xs[0], xs[1..];
      var head: seq<T> := if keep(x) then [x] else [];
      UnconsAppend(xs, ys);
      FilterCons(x, rest + ys, keep);
      FilterCons(x, rest, keep);
      FilterAppend(rest, ys, keep);
      AppendAssoc(head, Filter(rest, keep), Filter(ys, keep));
    }
  }

  /** Deleting position `i` leaves the positions before it alone. */
  lemma DeleteKeepsPrefix<T>(xs: seq<T>, i: int)
    requires 0 <= i < |xs|
    ensures |xs[..i] + xs[i + 1..]| == |xs| - 1
    ensures forall k :: 0 <= k < i ==> (xs[..i] + xs[i + 1..])[k] == xs[k]
  {
  }

  lemma UnconsAppend<T>(xs: seq<T>, ys: seq<T>)
    requires xs != []
    ensures xs == [xs[0]] + xs[1..] && xs + ys == [xs[0]] + (xs[1..] + ys)
  {
  }

  lemma AppendAssoc<T>(a: seq<T>, b: seq<T>, c: seq<T>)
    ensures a + (b + c) == (a + b) + c
  {
  }

  /** Deleting an element that `keep` rejects does not change what is kept. */
  lemma FilterSkipsRejected<T(!new)>(xs: seq<T>, i: int, keep: T -> bool)
    requires 0 <= i < |xs| && !keep(xs[i])
    ensures Filter(xs[..i] + xs[i + 1..], keep) == Filter(xs, keep)
  {
    SplitAround(xs, i);
    FilterDropsRejected(xs[..i], xs[i], xs[i + 1..], keep);
  }

  lemma SplitAround<T>(xs: seq<T>, i: int)
    requires 0 <= i < |xs|
    ensures xs == xs[..i] + ([xs[i]] + xs[i + 1..])
  {
  }

  lemma FilterDropsRejected<T(!new)>(before: seq<T>, x: T, rest: seq<T>, keep: T -> bool)
    requires !keep(x)
    ensures Filter(before + ([x] + rest), keep) == Filter(before + rest, keep)
  {
    FilterAppend(before, [x] + rest, keep);
    FilterCons(x, rest, keep);
    FilterAppend(before, rest, keep);
    assert [] + Filter(rest, keep) == Filter(rest, keep);
  }

  /** Keeping no element leaves nothing. */
  lemma {:induction false} FilterRejectsAll<T(!new)>(xs: seq<T>, keep: T -> bool)
    requires forall k :: 0 <= k < |xs| ==> !keep(xs[k])
    ensures Filter(xs, keep) == []
    decreases |xs|
  {
    if xs != [] {
      FilterRejectsAll(xs[1..], keep);
    }
  }
}
