/** Loops that take one choice a round, from outside or by a strategy. */
module Iterations {
  /** What the rounds make of `s`, one choice each. */
  ghost function Fold<S, A>(step: (S, A) -> S, s: S, choices: seq<A>): S {
    if choices == [] then s
    else step(Fold(step, s, choices[..|choices| - 1]), choices[|choices| - 1])
  }

  /** Every choice is one that may be made where it is made. */
  ghost predicate Takes<S, A>(step: (S, A) -> S, may: (S, A) -> bool, s: S, choices: seq<A>) {
    forall i {:trigger choices[i]} :: 0 <= i < |choices| ==> may(Fold(step, s, choices[..i]), choices[i])
  }

  ghost function First<A>(choices: nat -> A, n: nat): (first: seq<A>)
    ensures |first| == n && forall i :: 0 <= i < n ==> first[i] == choices(i)
  {
    seq(n, i requires 0 <= i < n => choices(i))
  }

  lemma FoldFirst<S, A>(step: (S, A) -> S, s: S, choices: nat -> A, n: nat)
    ensures First(choices, n + 1)[..n] == First(choices, n)
    ensures Fold(step, s, First(choices, n + 1)) == step(Fold(step, s, First(choices, n)), choices(n))
  {
    assert First(choices, n + 1)[..n] == First(choices, n);
  }

  lemma OneMoreChoice<S, A>(step: (S, A) -> S, may: (S, A) -> bool, s: S, choices: seq<A>, x: A)
    requires Takes(step, may, s, choices) && may(Fold(step, s, choices), x)
    ensures Takes(step, may, s, choices + [x])
    ensures Fold(step, s, choices + [x]) == step(Fold(step, s, choices), x)
  {
    var more := choices + [x];
    assert more[..|choices|] == choices;
    forall i | 0 <= i < |more|
      ensures may(Fold(step, s, more[..i]), more[i])
    {
      if i < |choices| {
        assert more[..i] == choices[..i];
        assert may(Fold(step, s, choices[..i]), choices[i]);
      }
    }
  }

  lemma {:induction false} FoldKeeps<S(!new), A(!new)>(step: (S, A) -> S, keep: S -> bool, s: S, choices: seq<A>)
    requires keep(s) && forall c, x :: keep(c) ==> keep(step(c, x))
    ensures keep(Fold(step, s, choices))
  {
    if choices != [] {
      FoldKeeps(step, keep, s, choices[..|choices| - 1]);
    }
  }

  /** The state after `n` rounds of a strategy. */
  ghost function Steered<S, A>(step: (S, A) -> S, strategy: S -> A, s: S, n: nat): S {
    if n == 0 then s else
      var before := Steered(step, strategy, s, n - 1);
      step(before, strategy(before))
  }

  ghost function Choices<S, A>(step: (S, A) -> S, strategy: S -> A, s: S): nat -> A {
    (n: nat) => strategy(Steered(step, strategy, s, n))
  }

  lemma {:induction false} SteeredIsFold<S, A>(step: (S, A) -> S, strategy: S -> A, s: S, n: nat)
    ensures Fold(step, s, First(Choices(step, strategy, s), n)) == Steered(step, strategy, s, n)
  {
    if n > 0 {
      SteeredIsFold(step, strategy, s, n - 1);
      FoldFirst(step, s, Choices(step, strategy, s), n - 1);
    }
  }

  lemma {:induction false} SteeredKeeps<S(!new), A>(step: (S, A) -> S, strategy: S -> A, keep: S -> bool, s: S, n: nat)
    requires keep(s) && forall c :: keep(c) ==> keep(step(c, strategy(c)))
    ensures keep(Steered(step, strategy, s, n))
  {
    if n > 0 {
      SteeredKeeps(step, strategy, keep, s, n - 1);
    }
  }

  /** A strategy's choices may be made for as long as each of them may. */
  lemma SteeredTakes<S, A>(step: (S, A) -> S, may: (S, A) -> bool, strategy: S -> A, s: S, n: nat)
    requires forall i :: 0 <= i < n ==> var c := Steered(step, strategy, s, i); may(c, strategy(c))
    ensures Takes(step, may, s, First(Choices(step, strategy, s), n))
  {
    var choices := Choices(step, strategy, s);
    forall i | 0 <= i < n
      ensures may(Fold(step, s, First(choices, n)[..i]), First(choices, n)[i])
    {
      assert First(choices, n)[..i] == First(choices, i);
      SteeredIsFold(step, strategy, s, i);
    }
  }

  lemma TakesOneMore<S, A>(step: (S, A) -> S, may: (S, A) -> bool, s: S, choices: nat -> A, n: nat)
    ensures Takes(step, may, s, First(choices, n + 1))
       <==> Takes(step, may, s, First(choices, n)) && may(Fold(step, s, First(choices, n)), choices(n))
  {
    var more, first := First(choices, n + 1), First(choices, n);
    forall i | 0 <= i <= n
      ensures more[..i] == First(choices, i) && (i < n ==> first[..i] == First(choices, i) && first[i] == more[i])
    {
    }
    if Takes(step, may, s, first) && may(Fold(step, s, first), choices(n)) {
      forall i | 0 <= i < |more|
        ensures may(Fold(step, s, more[..i]), more[i])
      {
        assert more[..i] == First(choices, i);
        assert i < n ==> may(Fold(step, s, first[..i]), first[i]);
      }
    }
    if Takes(step, may, s, more) {
      forall i | 0 <= i < |first|
        ensures may(Fold(step, s, first[..i]), first[i])
      {
        assert more[..i] == First(choices, i);
      }
      assert more[..n] == first && more[n] == choices(n);
    }
  }

  /** Where a measure goes down with every choice that may be made, some choice may not. */
  lemma {:induction false} FindStop<S(!new), A(!new)>(step: (S, A) -> S, may: (S, A) -> bool, choices: nat -> A,
                                                      size: S -> nat, s: S, from: nat)
    returns (n: nat)
    requires forall c, x: A :: may(c, x) ==> size(step(c, x)) < size(c)
    requires Takes(step, may, s, First(choices, from))
    ensures Takes(step, may, s, First(choices, n))
    ensures !may(Fold(step, s, First(choices, n)), choices(n))
    decreases size(Fold(step, s, First(choices, from)))
  {
    if !may(Fold(step, s, First(choices, from)), choices(from)) {
      n := from;
    } else {
      TakesOneMore(step, may, s, choices, from);
      FoldFirst(step, s, choices, from);
      var c := Fold(step, s, First(choices, from));
      assert size(step(c, choices(from))) < size(c);
      n := FindStop(step, may, choices, size, s, from + 1);
    }
  }
}

/** The eviction loop of the disk cache, round by round, for every order in which the map may yield its
    entries: what the search finds, and when the loop ends. */
module LocalEviction {
  import opened Common
  import opened Iterations
  import opened LocalCacheSpec
  import opened MapSums

  // ---------------------------------------------------------------- the search for the oldest entry

  /** The loop over the index, in the order in which the map yields it. It starts from `none`, the empty
      key in the source, and takes that to mean that it has found nothing yet. */
  function Scan<K(==)>(none: K, index: map<K, Entry>, order: seq<K>): K
    requires forall k :: k in order ==> k in index
  {
    if order == [] then none
    else
      assert forall k :: k in order[..|order| - 1] ==> k in order;
      var oldest, key := Scan(none, index, order[..|order| - 1]), order[|order| - 1];
      if oldest == none || oldest !in index || index[key].accessedAt < index[oldest].accessedAt then key else oldest
  }

  /** Without the empty key among them, the search finds an entry that is least recently used. */
  lemma {:induction false} ScanFindsOldest<K>(none: K, index: map<K, Entry>, order: seq<K>)
    requires forall k :: k in order ==> k in index
    requires none !in order && order != []
    ensures Scan(none, index, order) in order
    ensures forall k :: k in order ==> index[Scan(none, index, order)].accessedAt <= index[k].accessedAt
  {
    var init, key := order[..|order| - 1], order[|order| - 1];
    assert order == init + [key];
    assert key in order;
    if init != [] {
      ScanFindsOldest(none, index, init);
    }
  }

  /** With the empty key last, it is what the search comes back with exactly if it is older than the others. */
  lemma ScanOfNoneLast<K>(none: K, index: map<K, Entry>, init: seq<K>)
    requires forall k :: k in init + [none] ==> k in index
    requires none !in init && init != []
    ensures none in index
    ensures Scan(none, index, init + [none]) == none
       <==> forall k :: k in init ==> index[none].accessedAt < index[k].accessedAt
  {
    assert none in init + [none] && forall k :: k in init ==> k in init + [none];
    assert (init + [none])[..|init|] == init;
    ScanFindsOldest(none, index, init);
  }

  /** The search comes back with nothing, and the eviction loop makes no progress, exactly when there is
      nothing, or when the empty key is itself an entry, comes up last, and is older than all others. */
  lemma ScanFindsNothingIff<K>(none: K, index: map<K, Entry>, order: seq<K>)
    requires forall k :: k in order ==> k in index
    requires Distinct(order)
    ensures Scan(none, index, order) == none <==>
            || order == []
            || (&& order[|order| - 1] == none && none in index
                && forall k :: k in order[..|order| - 1] ==> k in index && index[none].accessedAt < index[k].accessedAt)
  {
    if order != [] && order[|order| - 1] == none && |order| > 1 {
      assert order == order[..|order| - 1] + [none];
      DistinctSplit(order[..|order| - 1], [none]);
      ScanOfNoneLast(none, index, order[..|order| - 1]);
    }
  }

  // ---------------------------------------------------------------- the loop

  /** A search that finds nothing leaves everything as it is; otherwise the entry found goes. */
  ghost function Round<K>(none: K, s: Cache<K>, order: seq<K>): Cache<K> {
    if Lists(order, s.index) && Scan(none, s.index, order) != none then Delete(s, Scan(none, s.index, order)) else s
  }

  /** The loop goes on. */
  ghost predicate Running<K>(cfg: Config, s: Cache<K>) {
    s.used > Target(cfg) && s.index.Keys != {}
  }

  ghost function Step<K>(none: K): (Cache<K>, seq<K>) -> Cache<K> {
    (c: Cache<K>, order: seq<K>) => Round(none, c, order)
  }

  /** A round takes place while the loop goes on, and meets each entry that is there once. */
  ghost function May<K>(cfg: Config): (Cache<K>, seq<K>) -> bool {
    (c: Cache<K>, order: seq<K>) => Running(cfg, c) && Lists(order, c.index)
  }

  ghost function After<K>(none: K, s: Cache<K>, orders: seq<seq<K>>): Cache<K> {
    Fold(Step(none), s, orders)
  }

  /** The loop takes rounds in these orders. */
  ghost predicate Loops<K>(none: K, cfg: Config, s: Cache<K>, orders: seq<seq<K>>) {
    Takes(Step(none), May(cfg), s, orders)
  }

  /** However many rounds have been taken in these orders, the loop takes another. */
  ghost predicate NeverEnds<K(!new)>(none: K, cfg: Config, s: Cache<K>, orders: nat -> seq<K>) {
    forall n: nat {:trigger First(orders, n)} :: Loops(none, cfg, s, First(orders, n))
  }

  // ---------------------------------------------------------------- when the loop ends

  /** The entry under the empty key, and those used later. */
  ghost function Kept<K>(none: K, index: map<K, Entry>): map<K, Entry>
    requires none in index
  {
    map k | k in index && (k == none || index[none].accessedAt < index[k].accessedAt) :: index[k]
  }

  /** What the counter shows beyond the bytes of the entries: nothing, as long as it is true. */
  ghost function Surplus<K>(s: Cache<K>): int {
    s.used - Sum(Sizes(s.index))
  }

  /** There is an entry under the empty key, and its bytes and those of all entries used later than it
      miss the target. */
  ghost predicate MaySpin<K>(none: K, cfg: Config, s: Cache<K>) {
    none in s.index && Sum(Sizes(Kept(none, s.index))) + Surplus(s) > Target(cfg)
  }

  /** The entry under the empty key misses the target by itself. */
  ghost predicate MustSpin<K>(none: K, cfg: Config, s: Cache<K>) {
    none in s.index && s.index[none].size + Surplus(s) > Target(cfg)
  }

  lemma DeleteKeepsSurplus<K>(s: Cache<K>, key: K)
    ensures Surplus(Delete(s, key)) == Surplus(s)
  {
    if key in s.index {
      SumRemove(Sizes(s.index), key);
      assert Sizes(s.index - {key}) == Sizes(s.index) - {key};
    }
  }

  lemma {:induction false} SumOfSubmap<K>(a: map<K, int>, b: map<K, int>)
    requires Submap(a, b) && forall k :: k in b ==> b[k] >= 0
    ensures Sum(a) <= Sum(b)
    decreases |b|
  {
    if b == map[] {
      assert a == map[];
    } else {
      var k :| k in b;
      SumRemove(b, k);
      if k in a {
        SumRemove(a, k);
        SumOfSubmap(a - {k}, b - {k});
      } else {
        SumOfSubmap(a, b - {k});
      }
    }
  }

  /** The counter is as true as it was, nothing is there that was not, and an entry under the empty key still is. */
  ghost predicate Remains<K>(none: K, s: Cache<K>, c: Cache<K>) {
    Surplus(c) == Surplus(s) && Submap(c.index, s.index) && (none in s.index ==> none in c.index)
  }

  lemma {:induction false} ScanIsListed<K>(none: K, index: map<K, Entry>, order: seq<K>)
    requires forall k :: k in order ==> k in index
    ensures Scan(none, index, order) == none || Scan(none, index, order) in order
  {
    if order != [] {
      var init := order[..|order| - 1];
      assert order == init + [order[|order| - 1]];
      assert forall k :: k in init ==> k in order;
      ScanIsListed(none, index, init);
    }
  }

  /** An entry under the empty key is never removed. */
  lemma RoundRemains<K>(none: K, s: Cache<K>, c: Cache<K>, order: seq<K>)
    requires Remains(none, s, c)
    ensures Remains(none, s, Round(none, c, order))
  {
    if Lists(order, c.index) && Scan(none, c.index, order) != none {
      ScanIsListed(none, c.index, order);
      DeleteKeepsSurplus(c, Scan(none, c.index, order));
    }
  }

  lemma AfterRemains<K(!new)>(none: K, s: Cache<K>, orders: seq<seq<K>>)
    ensures Remains(none, s, After(none, s, orders))
  {
    var keep := (c: Cache<K>) => Remains(none, s, c);
    forall c, order | keep(c)
      ensures keep(Step(none)(c, order))
    {
      RoundRemains(none, s, c, order);
    }
    FoldKeeps(Step(none), keep, s, orders);
  }

  /** A search comes back with nothing only when all that is left was used later than the entry under the
      empty key. */
  lemma EmptyHandedMeansKept<K>(none: K, s: Cache<K>, c: Cache<K>, order: seq<K>)
    requires Remains(none, s, c) && c.index.Keys != {} && Lists(order, c.index)
    requires Scan(none, c.index, order) == none
    ensures none in s.index && c.used <= Sum(Sizes(Kept(none, s.index))) + Surplus(s)
  {
    ScanFindsNothingIff(none, c.index, order);
    var k :| k in c.index.Keys;
    assert k in order;
    assert order == order[..|order| - 1] + [none];
    assert forall j :: j in c.index && j != none ==> j in order[..|order| - 1];
    SumOfSubmap(Sizes(c.index), Sizes(Kept(none, s.index)));
  }

  /** A round whose search finds something removes one entry. */
  lemma RoundRemoves<K>(none: K, c: Cache<K>, order: seq<K>)
    requires Lists(order, c.index) && Scan(none, c.index, order) != none
    ensures |Round(none, c, order).index.Keys| == |c.index.Keys| - 1
  {
    ScanIsListed(none, c.index, order);
    assert Round(none, c, order).index.Keys == c.index.Keys - {Scan(none, c.index, order)};
  }

  /** A loop that never ends gets to a round whose search comes back with nothing. */
  lemma FindIdleRound<K(!new)>(none: K, cfg: Config, s: Cache<K>, orders: nat -> seq<K>)
    returns (c: Cache<K>, order: seq<K>)
    requires NeverEnds(none, cfg, s, orders)
    ensures Remains(none, s, c) && Running(cfg, c) && Lists(order, c.index) && Scan(none, c.index, order) == none
  {
    var finds := (c: Cache<K>, order: seq<K>) => Lists(order, c.index) && Scan(none, c.index, order) != none;
    var size := (c: Cache<K>) => |c.index.Keys|;
    forall c, order | finds(c, order)
      ensures size(Step(none)(c, order)) < size(c)
    {
      RoundRemoves(none, c, order);
    }
    var n := FindStop(Step(none), finds, orders, size, s, 0);
    TakesOneMore(Step(none), May(cfg), s, orders, n);
    assert Loops(none, cfg, s, First(orders, n + 1));
    AfterRemains(none, s, First(orders, n));
    c, order := After(none, s, First(orders, n)), orders(n);
  }

  // ---------------------------------------------------------------- two strategies

  lemma {:induction false} Enumerated<K>(keys: set<K>) returns (order: seq<K>)
    ensures Distinct(order) && (forall k :: k in order ==> k in keys) && forall k :: k in keys ==> k in order
  {
    order := [];
    if keys != {} {
      var k :| k in keys;
      var others := Enumerated(keys - {k});
      DistinctAppend(others, k);
      order := others + [k];
    }
  }

  /** The entry under the empty key, if there is one, comes first or last. */
  ghost predicate EmptyKeyAt<K>(none: K, index: map<K, Entry>, last: bool, order: seq<K>) {
    && Lists(order, index)
    && (none in index ==> order != [] && none == if last then order[|order| - 1] else order[0])
  }

  lemma SomeOrder<K>(none: K, index: map<K, Entry>, last: bool) returns (order: seq<K>)
    ensures EmptyKeyAt(none, index, last, order)
  {
    order := Enumerated(index.Keys - {none});
    if none in index {
      DistinctSplit(order, [none]);
      DistinctSplit([none], order);
      order := if last then order + [none] else [none] + order;
    }
  }

  lemma OrderExists<K(!new)>(none: K, index: map<K, Entry>, last: bool)
    ensures exists order :: EmptyKeyAt(none, index, last, order)
  {
    var order := SomeOrder(none, index, last);
  }

  ghost function Order<K(!new)>(none: K, index: map<K, Entry>, last: bool): (order: seq<K>)
    ensures EmptyKeyAt(none, index, last, order)
  {
    OrderExists(none, index, last);
    var order :| EmptyKeyAt(none, index, last, order);
    order
  }

  /** To keep the loop idle, meet the empty key last once all others were used later, and first before. */
  ghost function Idling<K(!new)>(none: K): Cache<K> -> seq<K> {
    (c: Cache<K>) => Order(none, c.index, none in c.index && Kept(none, c.index) == c.index)
  }

  /** To end it, always meet the empty key first. */
  ghost function Ending<K(!new)>(none: K): Cache<K> -> seq<K> {
    (c: Cache<K>) => Order(none, c.index, false)
  }

  /** Met first, the empty key is passed over. */
  lemma {:induction false} ScanSkipsNone<K>(none: K, index: map<K, Entry>, others: seq<K>)
    requires forall k :: k in [none] + others ==> k in index
    requires none !in others && others != []
    ensures forall k :: k in others ==> k in index
    ensures Scan(none, index, [none] + others) == Scan(none, index, others)
  {
    var init := others[..|others| - 1];
    assert forall k :: k in others ==> k in [none] + others;
    assert ([none] + others)[..|others|] == [none] + init;
    assert forall k :: k in [none] + init ==> k in [none] + others;
    if init == [] {
      assert [none] + init == [none] && Scan(none, index, [none]) == none;
    } else {
      assert forall k :: k in init ==> k in others;
      ScanSkipsNone(none, index, init);
    }
  }

  /** With the empty key first, or no entry under it, the search finds the oldest of the others. */
  lemma SearchOfOthers<K>(none: K, index: map<K, Entry>, order: seq<K>)
    requires EmptyKeyAt(none, index, false, order) && exists k :: k in index && k != none
    ensures var v := Scan(none, index, order);
            && v in index && v != none
            && forall k :: k in index && k != none ==> index[v].accessedAt <= index[k].accessedAt
  {
    var j :| j in index && j != none;
    assert j in order;
    if none in index {
      var others := order[1..];
      assert order == [none] + others;
      DistinctSplit([none], others);
      ScanSkipsNone(none, index, others);
      ScanFindsOldest(none, index, others);
      assert forall k :: k in index && k != none ==> k in others;
    } else {
      ScanFindsOldest(none, index, order);
    }
  }

  // ---------------------------------------------------------------- the two conditions

  /** An idling round removes no entry used later than the one under the empty key. */
  lemma IdlingKeeps<K(!new)>(none: K, s: Cache<K>, c: Cache<K>)
    requires Remains(none, s, c) && none in s.index && Submap(Kept(none, s.index), c.index)
    ensures Submap(Kept(none, s.index), Round(none, c, Idling(none)(c)).index)
  {
    var order := Idling(none)(c);
    if Kept(none, c.index) == c.index {
      var init := order[..|order| - 1];
      assert order == init + [none];
      DistinctSplit(init, [none]);
      forall k | k in init
        ensures k in c.index && c.index[none].accessedAt < c.index[k].accessedAt
      {
        assert k in order && k in Kept(none, c.index);
      }
      ScanFindsNothingIff(none, c.index, order);
    } else {
      var k :| k in c.index && k !in Kept(none, c.index);
      SearchOfOthers(none, c.index, order);
    }
  }

  lemma IdlingRuns<K(!new)>(none: K, cfg: Config, s: Cache<K>, n: nat)
    requires MaySpin(none, cfg, s)
    ensures Running(cfg, Steered(Step(none), Idling(none), s, n))
  {
    var kept := Kept(none, s.index);
    var keep := (c: Cache<K>) => Remains(none, s, c) && Submap(kept, c.index);
    forall c | keep(c)
      ensures keep(Step(none)(c, Idling(none)(c)))
    {
      RoundRemains(none, s, c, Idling(none)(c));
      IdlingKeeps(none, s, c);
    }
    SteeredKeeps(Step(none), Idling(none), keep, s, n);
    var c := Steered(Step(none), Idling(none), s, n);
    SumOfSubmap(Sizes(kept), Sizes(c.index));
    assert none in c.index.Keys;
  }

  /** From whatever counters, the loop runs for ever under some orders of the map if and only if there is an
      entry under the empty key whose bytes, with those of all entries used later, miss the target. */
  lemma MaySpinIff<K(!new)>(none: K, cfg: Config, s: Cache<K>)
    ensures (exists orders :: NeverEnds(none, cfg, s, orders)) <==> MaySpin(none, cfg, s)
  {
    if orders :| NeverEnds(none, cfg, s, orders) {
      var c, order := FindIdleRound(none, cfg, s, orders);
      EmptyHandedMeansKept(none, s, c, order);
    }
    if MaySpin(none, cfg, s) {
      var orders := Choices(Step(none), Idling(none), s);
      forall n: nat
        ensures Loops(none, cfg, s, First(orders, n))
      {
        forall i | 0 <= i < n
          ensures Running(cfg, Steered(Step(none), Idling(none), s, i))
        {
          IdlingRuns(none, cfg, s, i);
        }
        SteeredTakes(Step(none), May(cfg), Idling(none), s, n);
      }
      assert NeverEnds(none, cfg, s, orders);
    }
  }

  /** A loop that goes on has entries besides the one under the empty key, unless that one misses the
      target by itself. */
  lemma OthersAreLeft<K>(none: K, cfg: Config, s: Cache<K>, c: Cache<K>)
    requires Remains(none, s, c) && Running(cfg, c) && !MustSpin(none, cfg, s)
    ensures exists k :: k in c.index && k != none
  {
    if c.index.Keys == {none} {
      LoneEntry(none, c);
      assert false;
    }
    var k :| k in c.index.Keys;
    assert k == none ==> exists j :: j in c.index.Keys && j != none;
  }

  lemma LoneEntry<K>(none: K, c: Cache<K>)
    requires c.index.Keys == {none}
    ensures none in c.index && c.used == c.index[none].size + Surplus(c)
  {
    assert none in c.index.Keys;
    SumRemove(Sizes(c.index), none);
    assert Sizes(c.index) - {none} == map[];
  }

  /** With the empty key always first, the loop ends, unless that key's entry misses the target by itself. */
  lemma EndingEnds<K(!new)>(none: K, cfg: Config, s: Cache<K>) returns (orders: seq<seq<K>>)
    requires !MustSpin(none, cfg, s)
    ensures Loops(none, cfg, s, orders) && !Running(cfg, After(none, s, orders))
  {
    var choices := Choices(Step(none), Ending(none), s);
    var goes := (c: Cache<K>, order: seq<K>) => Remains(none, s, c) && Running(cfg, c) && order == Ending(none)(c);
    var size := (c: Cache<K>) => |c.index.Keys|;
    forall c, order | goes(c, order)
      ensures size(Step(none)(c, order)) < size(c)
    {
      OthersAreLeft(none, cfg, s, c);
      SearchOfOthers(none, c.index, order);
      RoundRemoves(none, c, order);
    }
    var n := FindStop(Step(none), goes, choices, size, s, 0);
    orders := First(choices, n);
    AfterRemains(none, s, orders);
    SteeredIsFold(Step(none), Ending(none), s, n);
    forall i | 0 <= i < |orders|
      ensures May(cfg)(Fold(Step(none), s, orders[..i]), orders[i])
    {
      assert goes(Fold(Step(none), s, orders[..i]), orders[i]);
    }
  }

  /** From whatever counters, the loop runs for ever whatever the orders of the map if and only if the entry
      under the empty key misses the target by itself. */
  lemma MustSpinIff<K(!new)>(none: K, cfg: Config, s: Cache<K>)
    ensures (forall orders :: Loops(none, cfg, s, orders) ==> Running(cfg, After(none, s, orders)))
       <==> MustSpin(none, cfg, s)
  {
    if MustSpin(none, cfg, s) {
      forall orders | Loops(none, cfg, s, orders)
        ensures Running(cfg, After(none, s, orders))
      {
        var c := After(none, s, orders);
        AfterRemains(none, s, orders);
        SumNonNegative(Sizes(c.index));
        assert none in Sizes(c.index) && none in c.index.Keys;
      }
    } else {
      var orders := EndingEnds(none, cfg, s);
    }
  }

  // ---------------------------------------------------------------- a loop that ends

  /** `c` is where a loop from `s` can be that no order of the map keeps from ending. */
  ghost predicate OnItsWay<K>(none: K, cfg: Config, s: Cache<K>, c: Cache<K>) {
    if none in s.index then Remains(none, s, c) && !MaySpin(none, cfg, s) else none !in c.index
  }

  /** Every round of such a loop removes an entry, and without an entry under the empty key it removes one
      that is least recently used. */
  lemma EveryRoundRemoves<K>(none: K, cfg: Config, s: Cache<K>, c: Cache<K>, order: seq<K>)
    requires OnItsWay(none, cfg, s, c) && Running(cfg, c) && Lists(order, c.index)
    ensures var v := Scan(none, c.index, order);
            && v != none && v in c.index && Round(none, c, order) == DeleteEntry(c, v)
            && OnItsWay(none, cfg, s, DeleteEntry(c, v)) && (none !in s.index ==> Oldest(c, v))
  {
    ScanIsListed(none, c.index, order);
    if none in s.index {
      if Scan(none, c.index, order) == none {
        EmptyHandedMeansKept(none, s, c, order);
        assert false;
      }
      RoundRemains(none, s, c, order);
    } else {
      var k :| k in c.index.Keys;
      assert k in order;
      ScanFindsOldest(none, c.index, order);
    }
  }
}

/** Reachable caches whose eviction spins. */
module LocalEvictionRuns {
  import opened Common
  import opened LocalCacheSpec
  import opened LocalCacheRuns
  import opened LocalEviction

  function Plain(maxSize: nat): Config {
    Config(maxSize, 3600, false, x => None, x => None)
  }

  function Zeros(n: nat): (r: seq<byte>)
    ensures |r| == n
  {
    seq(n, _ => 0)
  }

  /** One value stored under the empty key fills a cache of ten bytes above the mark, and then no order of
      the map lets the eviction end. */
  lemma RunThatMustSpin() returns (ops: seq<Op<string>>)
    ensures var s := Run(Plain(10), ops); Accurate(s) && s.used > HighWater(Plain(10)) && MustSpin("", Plain(10), s)
  {
    var op := Set("", Zeros(10), 0, 1);
    ops := [op];
    RunAccurate(Plain(10), ops);
    assert ops[..0] == [];
    assert Run(Plain(10), ops) == Apply(Plain(10), EmptyCache(), op);
  }

  /** A small value under the empty key and a larger one used later: some orders let the eviction end, and
      some do not. */
  lemma RunThatMaySpin() returns (ops: seq<Op<string>>)
    ensures var s := Run(Plain(10), ops);
            && Accurate(s) && s.used > HighWater(Plain(10)) && MaySpin("", Plain(10), s) && !MustSpin("", Plain(10), s)
  {
    var first, second := Set("", Zeros(1), 0, 1), Set("a", Zeros(9), 0, 2);
    ops := [first, second];
    RunAccurate(Plain(10), ops);
    assert ops[..1] == [first] && [first][..0] == [];
    assert Run(Plain(10), [first]) == Apply(Plain(10), EmptyCache(), first);
    var s := Run(Plain(10), ops);
    assert s == Apply(Plain(10), Run(Plain(10), [first]), second);
    assert "a" != "";
    assert s.used == 10;
    assert Kept("", s.index) == s.index;
  }
}
