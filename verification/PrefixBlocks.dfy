/** How a prefix is cut: the tokens into blocks, the KV buffer into one slice a block. */
module PrefixBlocks {
  import opened Common
  import opened TokenEncoding

  function BlockCount(n: nat, blockSize: nat): nat
    requires blockSize > 0
  {
    (n + blockSize - 1) / blockSize
  }

  /** Where block `i` starts, and block `i - 1` ends. */
  function Boundary(i: nat, n: nat, blockSize: nat): nat {
    if i * blockSize > n then n else i * blockSize
  }

  function KvBoundary(i: nat, n: nat, blockSize: nat, kvLen: nat): nat
    requires n > 0
  {
    Boundary(i, n, blockSize) * kvLen / n
  }

  predicate CutsOf(cuts: seq<nat>, length: nat) {
    && |cuts| > 0 && cuts[0] == 0 && cuts[|cuts| - 1] == length
    && forall i, j :: 0 <= i <= j < |cuts| ==> cuts[i] <= cuts[j] <= length
  }

  function Cut<T>(data: seq<T>, cuts: seq<nat>): seq<seq<T>>
    requires CutsOf(cuts, |data|)
  {
    seq(|cuts| - 1, i requires 0 <= i < |cuts| - 1 => data[cuts[i]..cuts[i + 1]])
  }

  function Concat<T>(parts: seq<seq<T>>): seq<T> {
    if parts == [] then [] else Concat(parts[..|parts| - 1]) + parts[|parts| - 1]
  }

  /** Cutting leaves nothing out and repeats nothing. */
  lemma {:induction false} ConcatOfCut<T>(data: seq<T>, cuts: seq<nat>, k: nat)
    requires CutsOf(cuts, |data|) && k < |cuts|
    ensures Concat(Cut(data, cuts)[..k]) == data[..cuts[k]]
  {
    if k > 0 {
      ConcatOfCut(data, cuts, k - 1);
      assert Cut(data, cuts)[..k][..k - 1] == Cut(data, cuts)[..k - 1];
      assert data[..cuts[k]] == data[..cuts[k - 1]] + data[cuts[k - 1]..cuts[k]];
    }
  }

  // ---------------------------------------------------------------- the cut points

  lemma MulMonotone(a: nat, b: nat, c: nat)
    requires a <= b
    ensures a * c <= b * c
  {
  }

  lemma DivMonotone(a: nat, b: nat, n: nat)
    requires n > 0 && a <= b
    ensures a / n <= b / n
  {
    var qa, qb := a / n, b / n;
    assert a == qa * n + a % n && b == qb * n + b % n;
    assert (qb + 1) * n == qb * n + n;
    if qb + 1 <= qa {
      MulMonotone(qb + 1, qa, n);
    }
  }

  lemma DivExact(n: nat, k: nat)
    requires n > 0
    ensures n * k / n == k
  {
    var q := n * k / n;
    assert n * k == n * q + n * k % n;
    assert n * (k - q) == n * k % n;
    if k - q >= 1 {
      MulMonotone(1, k - q, n);
    }
  }

  lemma BoundaryStep(i: nat, n: nat, blockSize: nat)
    ensures Boundary(i + 1, n, blockSize) == Min(Boundary(i, n, blockSize) + blockSize, n)
  {
    assert (i + 1) * blockSize == i * blockSize + blockSize;
  }

  lemma BoundaryMonotone(i: nat, j: nat, n: nat, blockSize: nat)
    requires i <= j
    ensures Boundary(i, n, blockSize) <= Boundary(j, n, blockSize) <= n
  {
    MulMonotone(i, j, blockSize);
  }

  lemma KvBoundaryMonotone(i: nat, j: nat, n: nat, blockSize: nat, kvLen: nat)
    requires n > 0 && i <= j
    ensures KvBoundary(i, n, blockSize, kvLen) <= KvBoundary(j, n, blockSize, kvLen) <= kvLen
  {
    var a, b := Boundary(i, n, blockSize), Boundary(j, n, blockSize);
    BoundaryMonotone(i, j, n, blockSize);
    MulMonotone(a, b, kvLen);
    MulMonotone(b, n, kvLen);
    DivMonotone(a * kvLen, b * kvLen, n);
    DivMonotone(b * kvLen, n * kvLen, n);
    DivExact(n, kvLen);
  }

  /** Blocks before the last start short of the end; the last one ends there. */
  lemma BlockCountCovers(n: nat, blockSize: nat, i: nat)
    requires blockSize > 0
    ensures Boundary(BlockCount(n, blockSize), n, blockSize) == n
    ensures i < BlockCount(n, blockSize) ==> i * blockSize < n
  {
    var m := BlockCount(n, blockSize);
    assert m * blockSize + (n + blockSize - 1) % blockSize == n + blockSize - 1;
    if i < m {
      MulMonotone(i, m - 1, blockSize);
      assert (m - 1) * blockSize == m * blockSize - blockSize;
    }
  }

  lemma KvBoundaryEnds(n: nat, blockSize: nat, kvLen: nat)
    requires n > 0 && blockSize > 0
    ensures KvBoundary(0, n, blockSize, kvLen) == 0
    ensures KvBoundary(BlockCount(n, blockSize), n, blockSize, kvLen) == kvLen
  {
    BlockCountCovers(n, blockSize, 0);
    DivExact(n, kvLen);
    assert Boundary(0, n, blockSize) == 0;
  }

  function Min(a: nat, b: nat): nat {
    if a <= b then a else b
  }

  // ---------------------------------------------------------------- one prefix

  /** What one insertion is given, after truncation. */
  datatype Prefix = Prefix(tokens: seq<int32>, kv: seq<byte>, blockSize: nat) {
    predicate Valid() {
      tokens != [] && blockSize > 0
    }

    function Count(): nat
      requires Valid()
    {
      BlockCount(|tokens|, blockSize)
    }

    function TokenCuts(): (cuts: seq<nat>)
      requires Valid()
      ensures CutsOf(cuts, |tokens|) && |cuts| == Count() + 1
      ensures forall i :: 0 <= i < |cuts| ==> cuts[i] == Boundary(i, |tokens|, blockSize)
    {
      var cuts := seq(Count() + 1, i requires 0 <= i => Boundary(i, |tokens|, blockSize));
      TokenCutsCut(this, cuts);
      cuts
    }

    function KvCuts(): (cuts: seq<nat>)
      requires Valid()
      ensures CutsOf(cuts, |kv|) && |cuts| == Count() + 1
      ensures forall i :: 0 <= i < |cuts| ==> cuts[i] == KvBoundary(i, |tokens|, blockSize, |kv|)
    {
      var cuts := seq(Count() + 1, i requires 0 <= i => KvBoundary(i, |tokens|, blockSize, |kv|));
      KvCutsCut(this, cuts);
      cuts
    }

    function TokenBlocks(): seq<seq<int32>>
      requires Valid()
    {
      Cut(tokens, TokenCuts())
    }

    function KvSlices(): seq<seq<byte>>
      requires Valid()
    {
      Cut(kv, KvCuts())
    }

    /** A block is keyed by everything up to its end, not by its own tokens. */
    function Keys<K>(digest: seq<byte> -> K): seq<K>
      requires Valid()
    {
      var cuts := TokenCuts();
      seq(Count(), i requires 0 <= i < Count() => digest(Encode(tokens[..cuts[i + 1]])))
    }
  }

  lemma TokenCutsCut(p: Prefix, cuts: seq<nat>)
    requires p.Valid() && |cuts| == p.Count() + 1
    requires forall i :: 0 <= i < |cuts| ==> cuts[i] == Boundary(i, |p.tokens|, p.blockSize)
    ensures CutsOf(cuts, |p.tokens|)
  {
    BlockCountCovers(|p.tokens|, p.blockSize, 0);
    forall i, j | 0 <= i <= j < |cuts|
      ensures cuts[i] <= cuts[j] <= |p.tokens|
    {
      BoundaryMonotone(i, j, |p.tokens|, p.blockSize);
    }
  }

  lemma KvCutsCut(p: Prefix, cuts: seq<nat>)
    requires p.Valid() && |cuts| == p.Count() + 1
    requires forall i :: 0 <= i < |cuts| ==> cuts[i] == KvBoundary(i, |p.tokens|, p.blockSize, |p.kv|)
    ensures CutsOf(cuts, |p.kv|)
  {
    KvBoundaryEnds(|p.tokens|, p.blockSize, |p.kv|);
    forall i, j | 0 <= i <= j < |cuts|
      ensures cuts[i] <= cuts[j] <= |p.kv|
    {
      KvBoundaryMonotone(i, j, |p.tokens|, p.blockSize, |p.kv|);
    }
  }

  /** The blocks partition the tokens, and the slices, one a block, partition the KV buffer. */
  lemma BlocksPartition(p: Prefix)
    requires p.Valid()
    ensures |p.TokenBlocks()| == |p.KvSlices()| == p.Count()
    ensures Concat(p.TokenBlocks()) == p.tokens
    ensures Concat(p.KvSlices()) == p.kv
  {
    var m := p.Count();
    ConcatOfCut(p.tokens, p.TokenCuts(), m);
    ConcatOfCut(p.kv, p.KvCuts(), m);
    assert p.TokenBlocks()[..m] == p.TokenBlocks();
    assert p.KvSlices()[..m] == p.KvSlices();
    assert p.tokens[..|p.tokens|] == p.tokens && p.kv[..|p.kv|] == p.kv;
  }

  /** No block is empty, none is longer than the block size, and the first is as long as it can be. */
  lemma BlockLengths(p: Prefix)
    requires p.Valid()
    ensures p.Count() > 0
    ensures forall i :: 0 <= i < p.Count() ==> 0 < |p.TokenBlocks()[i]| <= p.blockSize
    ensures p.TokenBlocks()[0] == p.tokens[..Min(p.blockSize, |p.tokens|)]
  {
    var n := |p.tokens|;
    BlockCountCovers(n, p.blockSize, 0);
    forall i | 0 <= i < p.Count()
      ensures 0 < |p.TokenBlocks()[i]| <= p.blockSize
    {
      BlockCountCovers(n, p.blockSize, i);
      BoundaryStep(i, n, p.blockSize);
    }
    BoundaryStep(0, n, p.blockSize);
    assert Boundary(0, n, p.blockSize) == 0;
  }

  /** The key of a block digests all tokens up to its end; that of the last block digests all there are. */
  lemma KeyDigestsPrefix<K>(p: Prefix, digest: seq<byte> -> K, i: nat)
    requires p.Valid() && i < p.Count()
    ensures |p.Keys(digest)| == |p.TokenBlocks()| == p.Count()
    ensures p.Keys(digest)[i] == digest(Encode(Concat(p.TokenBlocks()[..i + 1])))
    ensures i == p.Count() - 1 ==> p.Keys(digest)[i] == digest(Encode(p.tokens))
  {
    ConcatOfCut(p.tokens, p.TokenCuts(), i + 1);
    assert p.tokens[..|p.tokens|] == p.tokens;
  }

  ghost function EncodedPrefixes(tokens: seq<int32>): set<seq<byte>> {
    set n | 0 <= n <= |tokens| :: Encode(tokens[..n])
  }

  lemma PrefixesDiffer<K>(tokens: seq<int32>, digest: seq<byte> -> K, a: nat, b: nat)
    requires a < b <= |tokens| && CollisionFree(digest, EncodedPrefixes(tokens))
    ensures digest(Encode(tokens[..a])) != digest(Encode(tokens[..b]))
  {
    assert |tokens[..a]| != |tokens[..b]|;
    EncodeInjective(tokens[..a], tokens[..b]);
    assert Encode(tokens[..a]) in EncodedPrefixes(tokens) && Encode(tokens[..b]) in EncodedPrefixes(tokens);
  }

  /** A digest without collisions on the encoded prefixes gives every block a key of its own. */
  lemma KeysAreDistinct<K>(p: Prefix, digest: seq<byte> -> K)
    requires p.Valid() && CollisionFree(digest, EncodedPrefixes(p.tokens))
    ensures Distinct(p.Keys(digest))
  {
    var cuts := p.TokenCuts();
    forall i, j | 0 <= i < j < p.Count()
      ensures !Repeats(p.Keys(digest), i, j)
    {
      BlockLengths(p);
      assert |p.TokenBlocks()[j]| == cuts[j + 1] - cuts[j];
      assert cuts[i + 1] <= cuts[j] < cuts[j + 1];
      PrefixesDiffer(p.tokens, digest, cuts[i + 1], cuts[j + 1]);
    }
  }
}

/** Storing the blocks of a prefix, and finding them again in the tree. */
module PrefixInsertion {
  import opened Common
  import opened PrefixStoreSpec
  import opened PrefixTreeSpec
  import opened PrefixBlocks

  ghost function StoreBlocks<K>(cfg: Config, s: Store<K>, keys: seq<K>, slices: seq<seq<byte>>, ttl: int, now: int,
                                k: nat): Store<K>
    requires k <= |keys| && k <= |slices|
  {
    if k == 0 then s
    else Put(cfg, StoreBlocks(cfg, s, keys, slices, ttl, now, k - 1), keys[k - 1], slices[k - 1], ttl, now)
  }

  /** How many of the first `k` blocks ask for an eviction: those that do not fit when they are stored. */
  ghost function Overfilling<K>(cfg: Config, s: Store<K>, keys: seq<K>, slices: seq<seq<byte>>, ttl: int, now: int,
                                k: nat): nat
    requires k <= |keys| && k <= |slices|
  {
    if k == 0 then 0
    else Overfilling(cfg, s, keys, slices, ttl, now, k - 1)
         + AskedFor(cfg, StoreBlocks(cfg, s, keys, slices, ttl, now, k - 1), keys[k - 1], |slices[k - 1]|)
  }

  /** One eviction is asked for where storing overfills the GPU. */
  function AskedFor<K(==)>(cfg: Config, s: Store<K>, key: K, size: nat): nat {
    if s.used - SizeAt(s.gpu, key) + size > cfg.maxSize then 1 else 0
  }

  /** `s'` is what the first `k` blocks leave, and `asked` how many evictions they ask for. */
  ghost predicate StoredFirst<K>(cfg: Config, s: Store<K>, keys: seq<K>, slices: seq<seq<byte>>, ttl: int, now: int,
                                 k: nat, s': Store<K>, asked: int)
    requires k <= |keys| && k <= |slices|
  {
    && s' == StoreBlocks(cfg, s, keys, slices, ttl, now, k)
    && asked == Overfilling(cfg, s, keys, slices, ttl, now, k)
  }

  lemma OneMoreStored<K>(cfg: Config, s: Store<K>, keys: seq<K>, slices: seq<seq<byte>>, ttl: int, now: int, k: nat,
                         s': Store<K>, asked: int)
    requires k < |keys| && k < |slices| && StoredFirst(cfg, s, keys, slices, ttl, now, k, s', asked)
    ensures StoredFirst(cfg, s, keys, slices, ttl, now, k + 1, Put(cfg, s', keys[k], slices[k], ttl, now),
                        asked + AskedFor(cfg, s', keys[k], |slices[k]|))
  {
  }

  lemma {:induction false} OwnSliceIsStored<K>(cfg: Config, s: Store<K>, keys: seq<K>, slices: seq<seq<byte>>,
                                               ttl: int, now: int, k: nat, i: nat)
    requires i < k <= |keys| && k <= |slices| && Distinct(keys)
    ensures var s' := StoreBlocks(cfg, s, keys, slices, ttl, now, k);
            keys[i] in s'.gpu && s'.gpu[keys[i]] == NewBlock(cfg, slices[i], ttl, now)
  {
    if i < k - 1 {
      OwnSliceIsStored(cfg, s, keys, slices, ttl, now, k - 1, i);
      assert !Repeats(keys, i, k - 1);
    }
  }

  lemma {:induction false} OtherKeysStay<K>(cfg: Config, s: Store<K>, keys: seq<K>, slices: seq<seq<byte>>,
                                            ttl: int, now: int, k: nat, key: K)
    requires k <= |keys| && k <= |slices| && key !in keys[..k]
    ensures SameAt(s, StoreBlocks(cfg, s, keys, slices, ttl, now, k), key)
  {
    if k > 0 {
      assert keys[..k] == keys[..k - 1] + [keys[k - 1]];
      OtherKeysStay(cfg, s, keys, slices, ttl, now, k - 1, key);
    }
  }

  /** With a key for every block, each key ends up holding exactly its own slice, whatever was stored
      before, and what is under any other key stays. */
  lemma BlocksAreStored<K>(cfg: Config, s: Store<K>, keys: seq<K>, slices: seq<seq<byte>>, ttl: int, now: int, k: nat)
    requires k <= |keys| && k <= |slices| && Distinct(keys)
    ensures var s' := StoreBlocks(cfg, s, keys, slices, ttl, now, k);
            var end := now + if ttl == 0 then cfg.defaultTTL else ttl;
            && (forall i :: 0 <= i < k ==> keys[i] in s'.gpu && s'.gpu[keys[i]] == Block(slices[i], now, now, end, 0))
            && (forall key :: key !in keys[..k] ==> SameAt(s, s', key))
  {
    forall i | 0 <= i < k {
      OwnSliceIsStored(cfg, s, keys, slices, ttl, now, k, i);
    }
    forall key | key !in keys[..k] {
      OtherKeysStay(cfg, s, keys, slices, ttl, now, k, key);
    }
  }

  function TotalLength<T>(slices: seq<seq<T>>, k: nat): nat
    requires k <= |slices|
  {
    if k == 0 then 0 else TotalLength(slices, k - 1) + |slices[k - 1]|
  }

  lemma {:induction false} TotalLengthIsConcat<T>(slices: seq<seq<T>>, k: nat)
    requires k <= |slices|
    ensures TotalLength(slices, k) == |Concat(slices[..k])|
  {
    if k > 0 {
      TotalLengthIsConcat(slices, k - 1);
      assert slices[..k][..k - 1] == slices[..k - 1];
    }
  }

  lemma {:induction false} LaterKeysWait<K>(cfg: Config, s: Store<K>, keys: seq<K>, slices: seq<seq<byte>>,
                                            ttl: int, now: int, k: nat, j: nat)
    requires k <= j < |keys| && k <= |slices| && Distinct(keys)
    ensures SizeAt(StoreBlocks(cfg, s, keys, slices, ttl, now, k).gpu, keys[j]) == SizeAt(s.gpu, keys[j])
  {
    if k > 0 {
      LaterKeysWait(cfg, s, keys, slices, ttl, now, k - 1, j);
      assert !Repeats(keys, k - 1, j);
    }
  }

  /** The bytes on the GPU under the first `k` keys: what storing them replaces there. */
  function Replaced<K(==)>(s: Store<K>, keys: seq<K>, k: nat): nat
    requires k <= |keys|
  {
    if k == 0 then 0 else Replaced(s, keys, k - 1) + SizeAt(s.gpu, keys[k - 1])
  }

  /** The byte counter grows by the slices, less what they replace: no byte is stored twice or dropped. */
  lemma {:induction false} StoredBytes<K>(cfg: Config, s: Store<K>, keys: seq<K>, slices: seq<seq<byte>>,
                                          ttl: int, now: int, k: nat)
    requires k <= |keys| && k <= |slices| && Distinct(keys)
    ensures StoreBlocks(cfg, s, keys, slices, ttl, now, k).used
         == s.used + TotalLength(slices, k) - Replaced(s, keys, k)
  {
    if k > 0 {
      StoredBytes(cfg, s, keys, slices, ttl, now, k - 1);
      LaterKeysWait(cfg, s, keys, slices, ttl, now, k - 1, k - 1);
    }
  }

  /** Under a digest without collisions, inserting a prefix stores its KV buffer exactly once, in place of
      what its keys had on the GPU. */
  lemma InsertStoresBuffer<K>(cfg: Config, s: Store<K>, p: Prefix, digest: seq<byte> -> K, ttl: int, now: int)
    requires p.Valid() && Distinct(p.Keys(digest))
    ensures |p.Keys(digest)| == |p.KvSlices()| == p.Count()
    ensures StoreBlocks(cfg, s, p.Keys(digest), p.KvSlices(), ttl, now, p.Count()).used
         == s.used + |p.kv| - Replaced(s, p.Keys(digest), p.Count())
  {
    BlocksPartition(p);
    StoredBytes(cfg, s, p.Keys(digest), p.KvSlices(), ttl, now, p.Count());
    TotalLengthIsConcat(p.KvSlices(), p.Count());
    assert p.KvSlices()[..p.Count()] == p.KvSlices();
  }

  /** The tree insertions of one prefix: a block goes in under its own tokens, from the root. */
  function BlockLog<B>(blocks: seq<seq<int32>>, links: seq<Option<B>>): seq<Insertion<B>>
    requires |links| == |blocks|
  {
    seq(|links|, i requires 0 <= i < |links| => Insertion(blocks[i], links[i]))
  }

  /** Matching a sequence just inserted, after anything else that was inserted in blocks, finds a first block
      and no more; all of it is matched exactly when one block holds it and it was not cut. */
  lemma MatchAfterInsert<B>(log: seq<Insertion<B>>, q: seq<int32>, p: Prefix, links: seq<Option<B>>, max: nat, k: nat)
    requires p.Valid() && p.tokens == q[..Min(|q|, max)] && |links| == |p.TokenBlocks()| && Within(log, p.blockSize)
    requires LongestMatch(log + BlockLog(p.TokenBlocks(), links), q, max, k)
    ensures k == Min(p.blockSize, |p.tokens|)
    ensures k == |q| <==> |q| <= p.blockSize && |q| <= max
  {
    var more := BlockLog(p.TokenBlocks(), links);
    BlockLengths(p);
    BlocksAreWithin(p, links);
    MatchWithin(log + more, q, max, k, p.blockSize);
    var first := Min(p.blockSize, |p.tokens|);
    assert (log + more)[|log|] == more[0] && more[0].tokens == q[..first];
    assert IsPath(log + more, q[..first]);
  }

  lemma BlocksAreWithin<B>(p: Prefix, links: seq<Option<B>>)
    requires p.Valid() && |links| == |p.TokenBlocks()|
    ensures Within(BlockLog(p.TokenBlocks(), links), p.blockSize)
  {
    BlockLengths(p);
    assert forall i :: 0 <= i < |links| ==> |p.TokenBlocks()[i]| <= p.blockSize;
  }

  /** After anything else, the node of a block's tokens carries that block exactly when no later block of the
      prefix repeats the tokens: a repeat takes over its place in the tree. */
  lemma BlockFoundIff<B>(log: seq<Insertion<B>>, blocks: seq<seq<int32>>, links: seq<Option<B>>, i: nat)
    requires i < |links| == |blocks|
    requires forall j :: 0 <= j < |links| ==> links[j].Some?
    requires Distinct(links)
    ensures LastLink(log + BlockLog(blocks, links), blocks[i]) == links[i]
       <==> forall j :: i < j < |blocks| ==> blocks[j] != blocks[i]
  {
    var more := BlockLog(blocks, links);
    assert forall j :: 0 <= j < |blocks| ==> more[j].tokens == blocks[j] && more[j].link == links[j];
    var j := LastOccurrence(more, blocks[i], i);
    LastLinkConcat(log, more, blocks[i]);
    assert !Repeats(links, i, j);
  }

  lemma {:induction false} LastOccurrence<B>(log: seq<Insertion<B>>, q: seq<int32>, some: nat) returns (j: nat)
    requires forall e :: e in log ==> e.link.Some?
    requires some < |log| && log[some].tokens == q
    ensures some <= j < |log| && log[j].tokens == q && LastLink(log, q) == log[j].link
    ensures forall i :: j < i < |log| ==> log[i].tokens != q
    decreases |log|
  {
    var n := |log| - 1;
    assert log[n] in log;
    if log[n].tokens == q {
      j := n;
    } else {
      assert forall e :: e in log[..n] ==> e in log;
      j := LastOccurrence(log[..n], q, some);
    }
  }
}
