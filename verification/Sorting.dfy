/** Sorting by a key. Callers may rely on a sorted permutation and on nothing else: like the sort the
    source calls, the contract leaves the order of equal keys open. */
module Sorting {
  ghost predicate SortedBy<T>(xs: seq<T>, key: T -> int) {
    forall i, j :: 0 <= i < j < |xs| ==> key(xs[i]) <= key(xs[j])
  }

  ghost predicate DistinctBy<T, K>(xs: seq<T>, f: T -> K) {
    forall i, j :: 0 <= i < j < |xs| ==> f(xs[i]) != f(xs[j])
  }

  method SortBy<T>(xs: seq<T>, key: T -> int) returns (ys: seq<T>)
    ensures multiset(ys) == multiset(xs)
    ensures SortedBy(ys, key)
  {
    ys := [];
    for i := 0 to |xs|
      invariant multiset(ys) == multiset(xs[..i])
      invariant SortedBy(ys, key)
    {
      var at := PlaceFor(ys, xs[i], key);
      assert ys == ys[..at] + ys[at..];
      assert xs[..i + 1] == xs[..i] + [xs[i]];
      ys := ys[..at] + [xs[i]] + ys[at..];
    }
    assert xs[..|xs|] == xs;
  }

  method PlaceFor<T>(ys: seq<T>, x: T, key: T -> int) returns (at: nat)
    requires SortedBy(ys, key)
    ensures at <= |ys|
    ensures forall i :: 0 <= i < at ==> key(ys[i]) <= key(x)
    ensures forall i :: at <= i < |ys| ==> key(x) <= key(ys[i])
  {
    at := 0;
    while at < |ys| && key(ys[at]) <= key(x)
      invariant at <= |ys|
      invariant forall i :: 0 <= i < at ==> key(ys[i]) <= key(x)
    {
      at := at + 1;
    }
  }

  lemma SameElements<T>(xs: seq<T>, ys: seq<T>)
    requires multiset(ys) == multiset(xs)
    ensures |ys| == |xs|
    ensures forall x :: x in ys ==> x in xs
    ensures forall x :: x in xs ==> x in ys
  {
    assert |multiset(ys)| == |ys| && |multiset(xs)| == |xs|;
    assert forall x :: x in ys ==> x in multiset(ys);
    assert forall x :: x in xs ==> x in multiset(xs);
  }

  lemma {:induction false} MultiplicityOfDistinct<T, K>(xs: seq<T>, f: T -> K, x: T)
    requires DistinctBy(xs, f)
    ensures multiset(xs)[x] <= 1
  {
    if xs != [] {
      var init, last := xs[..|xs| - 1], xs[|xs| - 1];
      assert xs == init + [last];
      MultiplicityOfDistinct(init, f, x);
      assert x == last ==> forall i :: 0 <= i < |init| ==> init[i] != x;
    }
  }

  /** Rearranging a list does not make two of its elements share what only one of them had. */
  lemma PermutationStaysDistinct<T, K>(xs: seq<T>, ys: seq<T>, f: T -> K)
    requires multiset(ys) == multiset(xs) && DistinctBy(xs, f)
    ensures DistinctBy(ys, f)
  {
    SameElements(xs, ys);
    forall i, j | 0 <= i < j < |ys|
      ensures f(ys[i]) != f(ys[j])
    {
      assert ys[i] in xs && ys[j] in xs;
      MultiplicityOfDistinct(xs, f, ys[i]);
      EqualCountsTwice(ys, i, j);
    }
  }

  lemma EqualCountsTwice<T>(ys: seq<T>, i: nat, j: nat)
    requires i < j < |ys|
    ensures ys[i] == ys[j] ==> multiset(ys)[ys[i]] >= 2
  {
    assert ys == ys[..j] + [ys[j]] + ys[j + 1..];
    assert ys[i] in ys[..j];
  }

  ghost function Mapped<T, U>(xs: seq<T>, f: T -> U): (ys: seq<U>)
    ensures |ys| == |xs| && forall i :: 0 <= i < |xs| ==> ys[i] == f(xs[i])
  {
    seq(|xs|, i requires 0 <= i < |xs| => f(xs[i]))
  }

  lemma MappedAppend<T, U>(xs: seq<T>, x: T, f: T -> U)
    ensures Mapped(xs + [x], f) == Mapped(xs, f) + [f(x)]
  {
  }

  lemma MappedInsert<T, U>(before: seq<T>, x: T, after: seq<T>, f: T -> U)
    ensures multiset(Mapped(before + ([x] + after), f)) == multiset(Mapped(before + after, f)) + multiset{f(x)}
  {
    assert Mapped(before + ([x] + after), f) == Mapped(before, f) + ([f(x)] + Mapped(after, f));
    assert Mapped(before + after, f) == Mapped(before, f) + Mapped(after, f);
  }

  /** What becomes of a list does not depend on its order. */
  lemma {:induction false} MappedPermutation<T, U>(xs: seq<T>, ys: seq<T>, f: T -> U)
    requires multiset(ys) == multiset(xs)
    ensures multiset(Mapped(ys, f)) == multiset(Mapped(xs, f))
    decreases |xs|
  {
    SameElements(xs, ys);
    if xs != [] {
      var init, last := xs[..|xs| - 1], xs[|xs| - 1];
      assert xs == init + [last];
      assert last in ys;
      var j :| 0 <= j < |ys| && ys[j] == last;
      var before, after := ys[..j], ys[j + 1..];
      assert ys == before + ([last] + after);
      SameWithoutOne(init, before, after, last);
      MappedPermutation(init, before + after, f);
      MappedAppend(init, last, f);
      MappedInsert(before, last, after, f);
    }
  }

  /** How many elements satisfy `p`. */
  ghost function CountIf<T>(xs: seq<T>, p: T -> bool): nat {
    if xs == [] then 0 else CountIf(xs[..|xs| - 1], p) + if p(xs[|xs| - 1]) then 1 else 0
  }

  lemma CountIfAppend<T>(xs: seq<T>, x: T, p: T -> bool)
    ensures CountIf(xs + [x], p) == CountIf(xs, p) + if p(x) then 1 else 0
  {
    assert (xs + [x])[..|xs|] == xs;
  }

  lemma {:induction false} CountIfConcat<T>(xs: seq<T>, ys: seq<T>, p: T -> bool)
    ensures CountIf(xs + ys, p) == CountIf(xs, p) + CountIf(ys, p)
  {
    if ys == [] {
      assert xs + ys == xs;
    } else {
      var init, last := ys[..|ys| - 1], ys[|ys| - 1];
      CountIfConcat(xs, init, p);
      assert xs + ys == (xs + init) + [last];
      CountIfAppend(xs + init, last, p);
    }
  }

  lemma SameWithoutOne<T>(init: seq<T>, before: seq<T>, after: seq<T>, x: T)
    requires multiset(before + ([x] + after)) == multiset(init + [x])
    ensures multiset(before + after) == multiset(init)
  {
    var one := multiset([x]);
    assert multiset(before) + (one + multiset(after)) == multiset(init) + one;
    assert multiset(before) + multiset(after) == multiset(init) + one - one;
  }

  /** Counting does not depend on the order. */
  lemma {:induction false} CountIfPermutation<T>(xs: seq<T>, ys: seq<T>, p: T -> bool)
    requires multiset(ys) == multiset(xs)
    ensures CountIf(ys, p) == CountIf(xs, p)
    decreases |xs|
  {
    SameElements(xs, ys);
    if xs != [] {
      var init, last := xs[..|xs| - 1], xs[|xs| - 1];
      assert xs == init + [last];
      assert last in ys;
      var j :| 0 <= j < |ys| && ys[j] == last;
      var before, after := ys[..j], ys[j + 1..];
      assert ys == before + ([last] + after);
      SameWithoutOne(init, before, after, last);
      CountIfPermutation(init, before + after, p);
      CountIfConcat(before, after, p);
      CountIfConcat(before, [last] + after, p);
      CountIfConcat([last], after, p);
      CountIfAppend([], last, p);
      assert [] + [last] == [last];
    }
  }

  /** Elements that look the same to `p`, place by place, count the same. */
  lemma {:induction false} CountIfPointwise<T>(xs: seq<T>, ys: seq<T>, p: T -> bool)
    requires |ys| == |xs| && forall i :: 0 <= i < |xs| ==> p(ys[i]) == p(xs[i])
    ensures CountIf(ys, p) == CountIf(xs, p)
  {
    if xs != [] {
      CountIfPointwise(xs[..|xs| - 1], ys[..|ys| - 1], p);
    }
  }

  lemma {:induction false} CountIfNone<T>(xs: seq<T>, p: T -> bool)
    requires forall i :: 0 <= i < |xs| ==> !p(xs[i])
    ensures CountIf(xs, p) == 0
  {
    if xs != [] {
      CountIfNone(xs[..|xs| - 1], p);
    }
  }

  function Filter<T>(xs: seq<T>, keep: T -> bool): seq<T> {
    if xs == [] then [] else Filter(xs[..|xs| - 1], keep) + if keep(xs[|xs| - 1]) then [xs[|xs| - 1]] else []
  }

  lemma {:induction false} FilterKeeps<T>(xs: seq<T>, keep: T -> bool)
    ensures |Filter(xs, keep)| <= |xs|
    ensures forall x :: x in Filter(xs, keep) <==> x in xs && keep(x)
  {
    if xs != [] {
      FilterKeeps(xs[..|xs| - 1], keep);
    }
  }

  /** `ys` are the elements of `xs` that `keep` holds of, in their order; `places` is where they are. */
  ghost predicate Picks<T>(xs: seq<T>, keep: T -> bool, places: seq<nat>, ys: seq<T>) {
    && |ys| == |places|
    && (forall i, j :: 0 <= i < j < |places| ==> places[i] < places[j])
    && (forall i :: 0 <= i < |places| ==> places[i] < |xs| && keep(ys[i]) && ys[i] == xs[places[i]])
    && forall j: nat :: j < |xs| && keep(xs[j]) ==> j in places
  }

  lemma PicksMore<T>(xs: seq<T>, x: T, keep: T -> bool, places: seq<nat>, ys: seq<T>)
    requires Picks(xs, keep, places, ys)
    ensures if keep(x) then Picks(xs + [x], keep, places + [|xs|], ys + [x]) else Picks(xs + [x], keep, places, ys)
  {
    if keep(x) {
      assert (places + [|xs|])[|places|] == |xs|;
    }
  }

  /** Filtering takes the elements that `keep` holds of, in their order, and passes over none. */
  lemma {:induction false} FilterPicks<T>(xs: seq<T>, keep: T -> bool) returns (places: seq<nat>)
    ensures Picks(xs, keep, places, Filter(xs, keep))
  {
    if xs == [] {
      places := [];
    } else {
      var init, last := xs[..|xs| - 1], xs[|xs| - 1];
      places := FilterPicks(init, keep);
      assert xs == init + [last];
      PicksMore(init, last, keep, places, Filter(init, keep));
      if keep(last) {
        places := places + [|init|];
      } else {
        assert Filter(xs, keep) == Filter(init, keep);
      }
    }
  }

  /** A filtered list is as long as it was exactly when nothing was dropped. */
  lemma {:induction false} FilterSameLength<T>(xs: seq<T>, keep: T -> bool)
    ensures |Filter(xs, keep)| == |xs| ==> Filter(xs, keep) == xs
    ensures (forall x :: x in xs ==> keep(x)) ==> Filter(xs, keep) == xs
  {
    if xs != [] {
      var init, last := xs[..|xs| - 1], xs[|xs| - 1];
      FilterSameLength(init, keep);
      FilterKeeps(init, keep);
      assert xs == init + [last];
    }
  }

  /** Dropping elements that `p` does not count leaves its count; dropping the others leaves none. */
  lemma {:induction false} CountIfFilter<T>(xs: seq<T>, keep: T -> bool, p: T -> bool)
    ensures (forall x :: x in xs && p(x) ==> keep(x)) ==> CountIf(Filter(xs, keep), p) == CountIf(xs, p)
    ensures (forall x :: x in xs && p(x) ==> !keep(x)) ==> CountIf(Filter(xs, keep), p) == 0
  {
    if xs != [] {
      var init, last := xs[..|xs| - 1], xs[|xs| - 1];
      CountIfFilter(init, keep, p);
      assert xs == init + [last];
      if keep(last) {
        CountIfAppend(Filter(init, keep), last, p);
      } else {
        assert Filter(xs, keep) == Filter(init, keep);
      }
    }
  }
}
