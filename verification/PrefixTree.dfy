/** What a prefix tree means: a log of the insertions since it was last cleared. */
module PrefixTreeSpec {
  import opened Common

  /** One insertion; `link` is the block that the inserted key named at the time, if any. */
  datatype Insertion<+B> = Insertion(tokens: seq<int32>, link: Option<B>)

  ghost predicate IsPath<B>(log: seq<Insertion<B>>, p: seq<int32>) {
    p == [] || exists i :: 0 <= i < |log| && p <= log[i].tokens
  }

  /** The block most recently linked at exactly `p`. */
  function LastLink<B>(log: seq<Insertion<B>>, p: seq<int32>): Option<B> {
    if log == [] then None
    else
      var e := log[|log| - 1];
      if e.tokens == p && e.link.Some? then e.link else LastLink(log[..|log| - 1], p)
  }

  /** The blocks linked at the first `k` non-empty prefixes of `q`, shortest first. */
  function LinkedAlong<B>(log: seq<Insertion<B>>, q: seq<int32>, k: nat): seq<B>
    requires k <= |q|
  {
    if k == 0 then []
    else
      var link := LastLink(log, q[..k]);
      LinkedAlong(log, q, k - 1) + if link.Some? then [link.value] else []
  }

  /** Entry `n` of the log links a block at exactly `p`. */
  ghost predicate LinksAt<B>(log: seq<Insertion<B>>, p: seq<int32>, n: int) {
    0 <= n < |log| && log[n].tokens == p && log[n].link.Some?
  }

  /** `b` is the last block that the log links at exactly `p`. */
  ghost predicate IsLastLink<B>(log: seq<Insertion<B>>, p: seq<int32>, b: B) {
    exists n {:trigger LinksAt(log, p, n)} ::
      && LinksAt(log, p, n) && log[n].link.value == b
      && forall m {:trigger LinksAt(log, p, m)} :: LinksAt(log, p, m) ==> m <= n
  }

  /** The log links a block at the first `d` tokens of `q`. */
  ghost predicate LinkedAt<B>(log: seq<Insertion<B>>, q: seq<int32>, d: nat) {
    d <= |q| && exists n {:trigger LinksAt(log, q[..d], n)} :: LinksAt(log, q[..d], n)
  }

  ghost predicate Rising(depths: seq<nat>) {
    forall i, j :: 0 <= i < j < |depths| ==> depths[i] < depths[j]
  }

  /** `depths` are, shortest first, the lengths up to `k` of the prefixes of `q` that the log links a block at, and
      `blocks` the last ones linked there. */
  ghost predicate BlocksAlong<B>(log: seq<Insertion<B>>, q: seq<int32>, k: nat, depths: seq<nat>, blocks: seq<B>) {
    && k <= |q| && |depths| == |blocks| && Rising(depths)
    && (forall i :: 0 <= i < |depths| ==> 0 < depths[i] <= k && IsLastLink(log, q[..depths[i]], blocks[i]))
    && (forall d {:trigger LinkedAt(log, q, d)} :: 0 < d <= k && LinkedAt(log, q, d) ==> d in depths)
  }

  lemma LinksAtLonger<B>(init: seq<Insertion<B>>, e: Insertion<B>, p: seq<int32>, n: int)
    ensures LinksAt(init + [e], p, n) <==> LinksAt(init, p, n) || (n == |init| && e.tokens == p && e.link.Some?)
  {
  }

  /** A path carries a block exactly when one was linked there, and then it carries the last one. */
  lemma {:induction false} LastLinkIs<B>(log: seq<Insertion<B>>, p: seq<int32>)
    ensures LastLink(log, p).Some? ==> IsLastLink(log, p, LastLink(log, p).value)
    ensures LastLink(log, p) == None ==> forall n {:trigger LinksAt(log, p, n)} :: !LinksAt(log, p, n)
  {
    if log != [] {
      var init, e := log[..|log| - 1], log[|log| - 1];
      LastLinkIs(init, p);
      assert log == init + [e];
      forall n
        ensures LinksAt(log, p, n) <==> LinksAt(init, p, n) || (n == |init| && e.tokens == p && e.link.Some?)
      {
        LinksAtLonger(init, e, p, n);
      }
      assert LinksAt(log, p, |init|) <==> e.tokens == p && e.link.Some?;
    }
  }

  lemma BlocksAlongFurther<B>(log: seq<Insertion<B>>, q: seq<int32>, k: nat, depths: seq<nat>, blocks: seq<B>)
    requires k < |q| && BlocksAlong(log, q, k, depths, blocks)
    ensures var link := LastLink(log, q[..k + 1]);
            if link.Some? then BlocksAlong(log, q, k + 1, depths + [k + 1], blocks + [link.value])
            else BlocksAlong(log, q, k + 1, depths, blocks)
  {
    LastLinkIs(log, q[..k + 1]);
    if LastLink(log, q[..k + 1]).Some? {
      assert (depths + [k + 1])[|depths|] == k + 1;
    }
  }

  /** The blocks of a match are, by depth, the last ones linked at the prefixes of the query. */
  lemma {:induction false} LinkedAlongIs<B>(log: seq<Insertion<B>>, q: seq<int32>, k: nat) returns (depths: seq<nat>)
    requires k <= |q|
    ensures BlocksAlong(log, q, k, depths, LinkedAlong(log, q, k))
  {
    if k == 0 {
      depths := [];
    } else {
      depths := LinkedAlongIs(log, q, k - 1);
      depths := OneFurther(log, q, k - 1, depths, LinkedAlong(log, q, k - 1));
    }
  }

  lemma OneFurther<B>(log: seq<Insertion<B>>, q: seq<int32>, k: nat, depths: seq<nat>, blocks: seq<B>)
    returns (depths': seq<nat>)
    requires k < |q| && BlocksAlong(log, q, k, depths, blocks)
    ensures var link := LastLink(log, q[..k + 1]);
            BlocksAlong(log, q, k + 1, depths', blocks + if link.Some? then [link.value] else [])
  {
    BlocksAlongFurther(log, q, k, depths, blocks);
    if LastLink(log, q[..k + 1]).Some? {
      depths' := depths + [k + 1];
    } else {
      depths' := depths;
      assert blocks + [] == blocks;
    }
  }

  ghost predicate SameFirst(ds: seq<nat>, ds': seq<nat>, n: nat) {
    n <= |ds| && n <= |ds'| && forall i :: 0 <= i < n ==> ds[i] == ds'[i]
  }

  /** After a common start the smallest of the others is common, too. */
  lemma SameNext(ds: seq<nat>, ds': seq<nat>, n: nat)
    requires Rising(ds) && Rising(ds') && (forall d :: d in ds <==> d in ds') && SameFirst(ds, ds', n)
    ensures n < |ds| <==> n < |ds'|
    ensures n < |ds| ==> SameFirst(ds, ds', n + 1)
  {
    if n < |ds| {
      assert ds[n] in ds';
      var j :| 0 <= j < |ds'| && ds'[j] == ds[n];
      assert j >= n && ds'[n] <= ds[n];
    }
    if n < |ds'| {
      assert ds'[n] in ds;
      var j :| 0 <= j < |ds| && ds[j] == ds'[n];
      assert j >= n && ds[n] <= ds'[n];
    }
  }

  lemma {:induction false} RisingUnique(ds: seq<nat>, ds': seq<nat>, n: nat)
    requires Rising(ds) && Rising(ds') && (forall d :: d in ds <==> d in ds') && SameFirst(ds, ds', n)
    ensures ds == ds'
    decreases |ds| - n
  {
    SameNext(ds, ds', n);
    if n < |ds| {
      RisingUnique(ds, ds', n + 1);
    }
  }

  /** There is only one such list of blocks. */
  lemma BlocksAlongUnique<B>(log: seq<Insertion<B>>, q: seq<int32>, k: nat, ds: seq<nat>, bs: seq<B>, ds': seq<nat>,
                             bs': seq<B>)
    requires BlocksAlong(log, q, k, ds, bs) && BlocksAlong(log, q, k, ds', bs')
    ensures ds == ds' && bs == bs'
  {
    assert forall i :: 0 <= i < |ds| ==> LinkedAt(log, q, ds[i]);
    assert forall i :: 0 <= i < |ds'| ==> LinkedAt(log, q, ds'[i]);
    RisingUnique(ds, ds', 0);
    assert forall i :: 0 <= i < |bs| ==> bs[i] == bs'[i];
  }

  /** A longer match finds the blocks of a shorter one first. */
  lemma {:induction false} LinkedAlongGrows<B>(log: seq<Insertion<B>>, q: seq<int32>, j: nat, k: nat)
    requires j <= k <= |q|
    ensures LinkedAlong(log, q, j) <= LinkedAlong(log, q, k)
    decreases k
  {
    if j < k {
      LinkedAlongGrows(log, q, j, k - 1);
    }
  }

  /** `k` is the length of the longest prefix of `q`, no longer than `max`, that is a prefix of
      some inserted sequence. */
  ghost predicate LongestMatch<B>(log: seq<Insertion<B>>, q: seq<int32>, max: int, k: nat) {
    && k <= |q| && (k == 0 || k <= max)
    && IsPath(log, q[..k])
    && forall j :: k < j <= |q| && j <= max ==> !IsPath(log, q[..j])
  }

  lemma IsPathAppend<B>(log: seq<Insertion<B>>, e: Insertion<B>, p: seq<int32>)
    ensures IsPath(log + [e], p) <==> IsPath(log, p) || p <= e.tokens
  {
    var log' := log + [e];
    if i :| 0 <= i < |log| && p <= log[i].tokens {
      assert log'[i] == log[i];
    }
    assert log'[|log|] == e;
  }

  lemma LastLinkAppend<B>(log: seq<Insertion<B>>, e: Insertion<B>, p: seq<int32>)
    ensures LastLink(log + [e], p)
         == if e.tokens == p && e.link.Some? then e.link else LastLink(log, p)
  {
    assert (log + [e])[..|log|] == log;
  }

  lemma PathsAreClosed<B>(log: seq<Insertion<B>>, q: seq<int32>, i: nat, j: nat)
    requires i <= j <= |q| && IsPath(log, q[..j])
    ensures IsPath(log, q[..i])
  {
    if j > 0 {
      var n :| 0 <= n < |log| && q[..j] <= log[n].tokens;
      assert q[..i] == q[..j][..i];
    }
  }

  /** Only a path carries a block. */
  lemma {:induction false} LinkedIsPath<B>(log: seq<Insertion<B>>, p: seq<int32>)
    ensures LastLink(log, p).Some? ==> IsPath(log, p)
  {
    if log != [] {
      var init, e := log[..|log| - 1], log[|log| - 1];
      LinkedIsPath(init, p);
      assert log == init + [e];
      IsPathAppend(init, e, p);
    }
  }

  /** No sequence of the log is longer than `n`. */
  ghost predicate Within<B>(log: seq<Insertion<B>>, n: nat) {
    forall i :: 0 <= i < |log| ==> |log[i].tokens| <= n
  }

  lemma {:induction false} LastLinkConcat<B>(log: seq<Insertion<B>>, more: seq<Insertion<B>>, p: seq<int32>)
    ensures LastLink(log + more, p) == if LastLink(more, p).Some? then LastLink(more, p) else LastLink(log, p)
  {
    if more == [] {
      assert log + more == log;
    } else {
      var init, e := more[..|more| - 1], more[|more| - 1];
      LastLinkConcat(log, init, p);
      LastLinkAppend(log + init, e, p);
      assert log + more == (log + init) + [e];
    }
  }

  /** Whatever was inserted, no match reaches beyond the longest inserted sequence. */
  lemma MatchWithin<B>(log: seq<Insertion<B>>, q: seq<int32>, max: int, k: nat, bound: nat)
    requires LongestMatch(log, q, max, k)
    requires Within(log, bound)
    ensures k <= bound
  {
    if k > 0 {
      var i :| 0 <= i < |log| && q[..k] <= log[i].tokens;
    }
  }
}

/** The prefix tree as linked nodes. */
module PrefixTrees {
  import opened Common
  import opened PrefixTreeSpec

  /** The way from the root to a node: a token sequence, last token outermost. */
  datatype Path = Root | Step(parent: Path, token: int32)

  function Tokens(p: Path): seq<int32> {
    match p
    case Root => []
    case Step(parent, token) => Tokens(parent) + [token]
  }

  function PathOf(q: seq<int32>, k: nat): Path
    requires k <= |q|
  {
    if k == 0 then Root else Step(PathOf(q, k - 1), q[k - 1])
  }

  predicate Above(p: Path, q: Path) {
    p == q || (q.Step? && Above(p, q.parent))
  }

  /** With every path above `q` added to those in `before`. */
  ghost predicate Grown(before: set<Path>, q: Path, now: set<Path>) {
    forall p {:trigger p in now} :: p in now <==> p in before || Above(p, q)
  }

  /** The first `i` tokens of `q` do not carry a block without having a node. */
  ghost predicate NoStrayLink<B>(log: seq<Insertion<B>>, now: set<Path>, q: seq<int32>, i: nat) {
    i <= |q| && LastLink(log, Tokens(PathOf(q, i))).Some? ==> PathOf(q, i) in now
  }

  lemma GrownOne(before: set<Path>, q: Path, now: set<Path>, t: int32)
    requires Grown(before, q, now)
    ensures Grown(before, Step(q, t), now + {Step(q, t)})
  {
  }

  lemma {:induction false} TokensOfPath(q: seq<int32>, k: nat)
    requires k <= |q|
    ensures Tokens(PathOf(q, k)) == q[..k]
  {
    if k > 0 {
      TokensOfPath(q, k - 1);
      assert q[..k] == q[..k - 1] + [q[k - 1]];
    }
  }

  lemma {:induction false} PathOfTokens(p: Path, q: seq<int32>)
    requires Tokens(p) <= q
    ensures PathOf(q, |Tokens(p)|) == p
  {
    if p.Step? {
      PathOfTokens(p.parent, q);
    }
  }

  lemma {:induction false} AbovePathOf(q: seq<int32>, j: nat, k: nat)
    requires j <= k <= |q|
    ensures Above(PathOf(q, j), PathOf(q, k))
    decreases k
  {
    if j < k {
      AbovePathOf(q, j, k - 1);
    }
  }

  lemma {:induction false} AboveIsPathOf(p: Path, q: seq<int32>, k: nat) returns (j: nat)
    requires k <= |q| && Above(p, PathOf(q, k))
    ensures j <= k && p == PathOf(q, j)
    decreases k
  {
    if p == PathOf(q, k) {
      j := k;
    } else {
      j := AboveIsPathOf(p, q, k - 1);
    }
  }

  lemma AboveIffPrefix(p: Path, q: seq<int32>)
    ensures Above(p, PathOf(q, |q|)) <==> Tokens(p) <= q
  {
    if Above(p, PathOf(q, |q|)) {
      var j := AboveIsPathOf(p, q, |q|);
      TokensOfPath(q, j);
    }
    if Tokens(p) <= q {
      PathOfTokens(p, q);
      AbovePathOf(q, |Tokens(p)|, |q|);
    }
  }

  /** What appending one insertion does to the meaning of the path `p`. */
  lemma Appended<B>(log: seq<Insertion<B>>, e: Insertion<B>, p: Path)
    ensures IsPath(log + [e], Tokens(p)) <==> IsPath(log, Tokens(p)) || Above(p, PathOf(e.tokens, |e.tokens|))
    ensures LastLink(log + [e], Tokens(p))
         == if p == PathOf(e.tokens, |e.tokens|) && e.link.Some? then e.link else LastLink(log, Tokens(p))
  {
    IsPathAppend(log, e, Tokens(p));
    LastLinkAppend(log, e, Tokens(p));
    AboveIffPrefix(p, e.tokens);
    TokensOfPath(e.tokens, |e.tokens|);
    if Tokens(p) == e.tokens {
      PathOfTokens(p, e.tokens);
    }
  }

  class PrefixNode<B> {
    var children: map<int32, PrefixNode<B>>
    var block: Option<B>
    ghost const path: Path

    constructor (ghost path: Path)
      ensures this.path == path && children == map[] && block == None
    {
      this.path := path;
      children, block := map[], None;
    }
  }

  class PrefixTree<K(==), B> {
    const root: PrefixNode<B>
    var blocks: map<K, B>
    /** Every node, by the way that leads to it. */
    ghost var nodes: map<Path, PrefixNode<B>>
    ghost var log: seq<Insertion<B>>

    /** The nodes form one tree: a node's children are exactly the one-token extensions of its path. */
    ghost predicate Shape()
      reads this`nodes, nodes.Values`children
    {
      && Root in nodes && nodes[Root] == root
      && (forall p :: p in nodes ==> nodes[p].path == p)
      && (forall p {:trigger Hangs(p)} :: p in nodes && p.Step? ==> Hangs(p))
      && (forall p, t :: p in nodes && t in nodes[p].children ==> Step(p, t) in nodes)
    }

    /** The node at `p` is the child of the node one token up. */
    ghost predicate Hangs(p: Path)
      requires p.Step? && p in nodes
      reads this`nodes, nodes.Values`children
    {
      && p.parent in nodes
      && p.token in nodes[p.parent].children
      && nodes[p.parent].children[p.token] == nodes[p]
    }

    ghost predicate Links()
      reads this`nodes, this`log, nodes.Values
    {
      forall p {:trigger p in nodes} :: p in nodes && p.Step? ==> nodes[p].block == LastLink(log, Tokens(p))
    }

    ghost predicate Valid()
      reads this`nodes, this`log, nodes.Values
    {
      && Shape()
      && (forall p {:trigger p in nodes} :: p in nodes <==> IsPath(log, Tokens(p)))
      && Links()
    }

    constructor ()
      ensures Valid() && fresh(nodes.Values)
      ensures log == [] && blocks == map[]
    {
      root := new PrefixNode<B>(Root);
      blocks, log := map[], [];
      new;
      nodes := map[Root := root];
    }

    /** Drops every node but the root; the root's own block stays, and no match ever reads it. */
    method Clear()
      requires Valid()
      modifies this, root
      ensures Valid() && nodes.Values <= old(nodes.Values)
      ensures log == [] && blocks == map[]
    {
      blocks := map[];
      root.children := map[];
      nodes, log := map[Root := root], [];
    }

    /** Gives `current` a child for `token`. */
    method AddChild(ghost here: Path, current: PrefixNode<B>, token: int32) returns (child: PrefixNode<B>)
      requires Shape() && Links() && here in nodes && current == nodes[here]
      requires Step(here, token) !in nodes && LastLink(log, Tokens(Step(here, token))) == None
      modifies this`nodes, current`children
      ensures Shape() && Links() && fresh(child)
      ensures nodes == old(nodes)[Step(here, token) := child]
    {
      child := new PrefixNode<B>(Step(here, token));
      current.children := current.children[token := child];
      nodes := nodes[Step(here, token) := child];
      forall p | p in nodes && p.Step?
        ensures Hangs(p)
      {
        assert p in old(nodes) ==> old(Hangs(p));
      }
    }

    /** Goes from `current` to its child for `token`, adding the child if there is none. */
    method Descend(ghost here: Path, current: PrefixNode<B>, token: int32) returns (child: PrefixNode<B>)
      requires Shape() && Links()
      requires LastLink(log, Tokens(Step(here, token))).Some? ==> Step(here, token) in nodes
      requires here in nodes && current == nodes[here]
      modifies this`nodes, current`children
      ensures Shape() && Links()
      ensures Submap(old(nodes), nodes) && nodes.Keys == old(nodes).Keys + {Step(here, token)}
      ensures Step(here, token) !in old(nodes) ==> fresh(child)
      ensures child == nodes[Step(here, token)]
    {
      assert Step(here, token) in nodes ==> Hangs(Step(here, token));
      if token in current.children {
        child := current.children[token];
      } else {
        child := AddChild(here, current, token);
      }
    }

    method Insert(tokens: seq<int32>, hash: K)
      requires Valid()
      modifies this`nodes, this`log, nodes.Values
      ensures Valid() && fresh(nodes.Values - old(nodes.Values))
      ensures log == old(log) + [Insertion(tokens, if hash in blocks then Some(blocks[hash]) else None)]
    {
      NoStrayLinks(tokens);
      var leaf := Walk(tokens);
      Link(tokens, leaf, hash);
    }

    lemma NoStrayLinks(q: seq<int32>)
      requires Valid()
      ensures forall i: nat {:trigger NoStrayLink(log, nodes.Keys, q, i)} :: NoStrayLink(log, nodes.Keys, q, i)
    {
      forall i: nat
        ensures NoStrayLink(log, nodes.Keys, q, i)
      {
        if i <= |q| {
          LinkedIsPath(log, Tokens(PathOf(q, i)));
        }
      }
    }

    /** The node of `tokens`, with every missing node on the way added. */
    method Walk(tokens: seq<int32>) returns (current: PrefixNode<B>)
      requires Shape() && Links()
      requires forall i: nat {:trigger NoStrayLink(log, nodes.Keys, tokens, i)} ::
                 NoStrayLink(log, nodes.Keys, tokens, i)
      modifies this`nodes, nodes.Values`children
      ensures Shape() && Links() && Submap(old(nodes), nodes)
      ensures forall p {:trigger p in nodes} :: p in nodes && p !in old(nodes) ==> fresh(nodes[p])
      ensures Grown(old(nodes).Keys, PathOf(tokens, |tokens|), nodes.Keys)
      ensures PathOf(tokens, |tokens|) in nodes && current == nodes[PathOf(tokens, |tokens|)]
    {
      current := root;
      ghost var before := nodes;
      var i := 0;
      while i < |tokens|
        invariant i <= |tokens|
        invariant Shape() && Links() && Submap(before, nodes)
        invariant forall p {:trigger p in nodes} :: p in nodes && p !in before ==> fresh(nodes[p])
        invariant Grown(before.Keys, PathOf(tokens, i), nodes.Keys)
        invariant PathOf(tokens, i) in nodes && current == nodes[PathOf(tokens, i)]
      {
        assert NoStrayLink(log, before.Keys, tokens, i + 1);
        current := WalkOn(before, tokens, i, current);
        i := i + 1;
      }
    }

    /** One token further. */
    method WalkOn(ghost before: map<Path, PrefixNode<B>>, tokens: seq<int32>, i: nat, current: PrefixNode<B>)
      returns (child: PrefixNode<B>)
      requires Shape() && Links() && i < |tokens| && Submap(before, nodes)
      requires Grown(before.Keys, PathOf(tokens, i), nodes.Keys) && NoStrayLink(log, before.Keys, tokens, i + 1)
      requires PathOf(tokens, i) in nodes && current == nodes[PathOf(tokens, i)]
      modifies this`nodes, current`children
      ensures Shape() && Links() && Submap(before, nodes) && Submap(old(nodes), nodes)
      ensures forall p {:trigger p in nodes} :: p in nodes && p !in old(nodes) ==> fresh(nodes[p])
      ensures Grown(before.Keys, PathOf(tokens, i + 1), nodes.Keys)
      ensures PathOf(tokens, i + 1) in nodes && child == nodes[PathOf(tokens, i + 1)]
    {
      GrownOne(before.Keys, PathOf(tokens, i), nodes.Keys, tokens[i]);
      assert PathOf(tokens, i + 1) in before ==> PathOf(tokens, i + 1) in nodes;
      child := Descend(PathOf(tokens, i), current, tokens[i]);
    }

    /** Attaches the block that `hash` names, if there is one, to the node of the inserted sequence. */
    method Link(tokens: seq<int32>, node: PrefixNode<B>, hash: K)
      requires Shape() && Links()
      requires forall p {:trigger p in nodes} ::
                 p in nodes <==> IsPath(log, Tokens(p)) || Above(p, PathOf(tokens, |tokens|))
      requires PathOf(tokens, |tokens|) in nodes && node == nodes[PathOf(tokens, |tokens|)]
      modifies this`log, node`block
      ensures Valid()
      ensures log == old(log) + [Insertion(tokens, if hash in blocks then Some(blocks[hash]) else None)]
    {
      if hash in blocks {
        node.block := Some(blocks[hash]);
      }
      ghost var e := Insertion(tokens, if hash in blocks then Some(blocks[hash]) else None);
      forall p
        ensures IsPath(log + [e], Tokens(p)) <==> p in nodes
        ensures LastLink(log + [e], Tokens(p))
             == if p == node.path && e.link.Some? then e.link else LastLink(log, Tokens(p))
      {
        Appended(log, e, p);
      }
      log := log + [e];
    }

    /** The longest match; `depths` are the lengths at which it comes across its blocks. */
    method Match(tokens: seq<int32>, maxPrefixLen: int)
      returns (matched: nat, matchedBlocks: seq<B>, ghost depths: seq<nat>)
      requires Valid()
      ensures LongestMatch(log, tokens, maxPrefixLen, matched)
      ensures matchedBlocks == LinkedAlong(log, tokens, matched)
      ensures BlocksAlong(log, tokens, matched, depths, matchedBlocks)
    {
      matched, matchedBlocks := Follow(tokens, maxPrefixLen);
      MatchEnds(tokens, maxPrefixLen, matched);
      depths := LinkedAlongIs(log, tokens, matched);
    }

    /** Goes down from the root for as long as there are tokens, nodes and allowed length. */
    method Follow(tokens: seq<int32>, maxPrefixLen: int) returns (matched: nat, matchedBlocks: seq<B>)
      requires Shape() && Links()
      ensures matched <= |tokens| && (matched == 0 || matched <= maxPrefixLen)
      ensures PathOf(tokens, matched) in nodes
      ensures matched == |tokens| || matched >= maxPrefixLen || PathOf(tokens, matched + 1) !in nodes
      ensures matchedBlocks == LinkedAlong(log, tokens, matched)
    {
      var current := root;
      matched, matchedBlocks := 0, [];
      for i := 0 to |tokens|
        invariant matched == i && (i == 0 || i <= maxPrefixLen)
        invariant PathOf(tokens, i) in nodes && current == nodes[PathOf(tokens, i)]
        invariant matchedBlocks == LinkedAlong(log, tokens, i)
      {
        assert PathOf(tokens, i + 1) in nodes ==> Hangs(PathOf(tokens, i + 1));
        if i >= maxPrefixLen || tokens[i] !in current.children {
          break;
        }
        current := current.children[tokens[i]];
        matched := i + 1;
        TokensOfPath(tokens, i + 1);
        if current.block.Some? {
          matchedBlocks := matchedBlocks + [current.block.value];
        }
      }
    }

    /** A walk that could not go on has found the longest match. */
    lemma MatchEnds(q: seq<int32>, max: int, k: nat)
      requires Valid()
      requires k <= |q| && (k == 0 || k <= max) && PathOf(q, k) in nodes
      requires k == |q| || k >= max || PathOf(q, k + 1) !in nodes
      ensures LongestMatch(log, q, max, k)
    {
      TokensOfPath(q, k);
      forall j | k < j <= |q| && j <= max
        ensures !IsPath(log, q[..j])
      {
        TokensOfPath(q, k + 1);
        if IsPath(log, q[..j]) {
          PathsAreClosed(log, q, k + 1, j);
        }
      }
    }
  }
}
