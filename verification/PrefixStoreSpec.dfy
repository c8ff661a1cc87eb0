/** The block store of the prefix cache on values: the blocks on the GPU, the blocks in swap, and the
    three counters that every decision of the code is taken on. */
module PrefixStoreSpec {
  import opened Common
  import opened MapSums

  datatype Block = Block(kv: seq<byte>, createdAt: int, accessedAt: int, expiresAt: int, refs: nat)

  datatype Config = Config(maxSize: nat, defaultTTL: int, enableSwap: bool, swapSize: int)

  datatype Store<!K> = Store(gpu: map<K, Block>, swap: map<K, Block>, used: int, swapUsed: int, entries: int)

  function EmptyStore<K(==)>(): Store<K> {
    Store(map[], map[], 0, 0, 0)
  }

  function Target(cfg: Config): nat {
    cfg.maxSize * 80 / 100
  }

  ghost predicate Disjoint<K>(s: Store<K>) {
    forall k :: k in s.gpu ==> k !in s.swap
  }

  ghost function Sizes<K>(m: map<K, Block>): map<K, int> {
    map k | k in m :: |m[k].kv|
  }

  ghost function Bytes<K>(m: map<K, Block>): int {
    Sum(Sizes(m))
  }

  /** What the counters ought to say. */
  ghost predicate Accurate<K>(s: Store<K>) {
    && Disjoint(s)
    && s.used == Bytes(s.gpu) && s.swapUsed == Bytes(s.swap)
    && s.entries == |s.gpu.Keys| + |s.swap.Keys|
  }

  lemma BytesWithout<K>(m: map<K, Block>, k: K)
    ensures Bytes(m - {k}) == Bytes(m) - SizeAt(m, k)
    ensures |(m - {k}).Keys| == |m.Keys| - if k in m then 1 else 0
  {
    KeysWithout(m, k);
    if k in m {
      SumRemove(Sizes(m), k);
      assert Sizes(m - {k}) == Sizes(m) - {k};
    } else {
      assert m - {k} == m;
    }
  }

  lemma BytesWith<K>(m: map<K, Block>, k: K, b: Block)
    ensures Bytes(m[k := b]) == Bytes(m) + |b.kv| - SizeAt(m, k)
    ensures |m[k := b].Keys| == |m.Keys| + if k in m then 0 else 1
  {
    KeysWith(m, k, b);
    SumInsert(Sizes(m), k, |b.kv|);
    assert Sizes(m[k := b]) == Sizes(m)[k := |b.kv|];
  }

  lemma KeysWithout<K, V>(m: map<K, V>, k: K)
    ensures |(m - {k}).Keys| == |m.Keys| - if k in m then 1 else 0
  {
    assert (m - {k}).Keys == m.Keys - {k};
  }

  lemma KeysWith<K, V>(m: map<K, V>, k: K, v: V)
    ensures |m[k := v].Keys| == |m.Keys| + if k in m then 0 else 1
  {
    assert m[k := v].Keys == m.Keys + {k};
  }

  lemma BytesOfNone<K>(m: map<K, Block>)
    ensures m.Keys == {} ==> Bytes(m) == 0
  {
    if m.Keys == {} {
      assert Sizes(m) == map[];
    }
  }

  // ---------------------------------------------------------------- the operations

  ghost function Find<K>(s: Store<K>, key: K): Option<Block> {
    if key in s.gpu then Some(s.gpu[key]) else if key in s.swap then Some(s.swap[key]) else None
  }

  function SizeAt<K(==)>(m: map<K, Block>, key: K): nat {
    if key in m then |m[key].kv| else 0
  }

  function Remove<K(==)>(s: Store<K>, key: K): Store<K>
    requires key in s.gpu || key in s.swap
  {
    Store(s.gpu - {key}, s.swap - {key}, s.used - SizeAt(s.gpu, key), s.swapUsed - SizeAt(s.swap, key), s.entries - 1)
  }

  function RemoveIfPresent<K(==)>(s: Store<K>, key: K): Store<K> {
    if key in s.gpu || key in s.swap then Remove(s, key) else s
  }

  function NewBlock(cfg: Config, value: seq<byte>, ttl: int, now: int): Block {
    Block(value, now, now, now + if ttl == 0 then cfg.defaultTTL else ttl, 0)
  }

  function AddNew<K(==)>(s: Store<K>, key: K, b: Block): Store<K> {
    Store(s.gpu[key := b], s.swap, s.used + |b.kv|, s.swapUsed, s.entries + 1)
  }

  function Put<K(==)>(cfg: Config, s: Store<K>, key: K, value: seq<byte>, ttl: int, now: int): Store<K> {
    AddNew(RemoveIfPresent(s, key), key, NewBlock(cfg, value, ttl, now))
  }

  /** Whether storing `size` more bytes makes `Set` ask for an eviction. */
  predicate Overfills<K(==)>(cfg: Config, s: Store<K>, size: nat) {
    s.used + size > cfg.maxSize
  }

  predicate Expired(b: Block, now: int) {
    now > b.expiresAt
  }

  predicate Sweepable<K(==)>(s: Store<K>, key: K, now: int) {
    key in s.gpu && Expired(s.gpu[key], now) && s.gpu[key].refs == 0
  }

  /** The expiry sweep over the GPU blocks, in the order in which it comes across them. */
  function Sweep<K(==)>(s: Store<K>, now: int, order: seq<K>): Store<K>
    decreases |order|
  {
    if order == [] then s
    else Sweep(if Sweepable(s, order[0], now) then Remove(s, order[0]) else s, now, order[1..])
  }

  function Swapped<K(==)>(s: Store<K>, key: K): Store<K>
    requires key in s.gpu
  {
    var b := s.gpu[key];
    Store(s.gpu - {key}, s.swap[key := b], s.used - |b.kv|, s.swapUsed + |b.kv|, s.entries)
  }

  function EvictOne<K(==)>(cfg: Config, s: Store<K>, key: K): Store<K> {
    if key !in s.gpu then s
    else if cfg.enableSwap && s.swapUsed < cfg.swapSize then Swapped(s, key)
    else Remove(s, key)
  }

  function EvictFrom<K(==)>(cfg: Config, s: Store<K>, order: seq<K>): Store<K>
    decreases |order|
  {
    if order == [] || s.used <= Target(cfg) then s
    else EvictFrom(cfg, EvictOne(cfg, s, order[0]), order[1..])
  }

  /** The part of `order` that the loop gets through before the target is met. */
  function Victims<K(==)>(cfg: Config, s: Store<K>, order: seq<K>): seq<K>
    decreases |order|
  {
    if order == [] || s.used <= Target(cfg) then []
    else [order[0]] + Victims(cfg, EvictOne(cfg, s, order[0]), order[1..])
  }

  ghost predicate Enumerates<K>(s: Store<K>, order: seq<K>) {
    Distinct(order) && (forall k :: k in order ==> k in s.gpu) && forall k :: k in s.gpu ==> k in order
  }

  /** The unpinned GPU blocks, least recently used first; ties in any order. */
  ghost predicate LruOrder<K>(s: Store<K>, order: seq<K>) {
    && Distinct(order)
    && (forall k :: k in order ==> k in s.gpu && s.gpu[k].refs == 0)
    && (forall k :: k in s.gpu && s.gpu[k].refs == 0 ==> k in order)
    && forall i, j :: 0 <= i < j < |order| ==> s.gpu[order[i]].accessedAt <= s.gpu[order[j]].accessedAt
  }

  ghost function Lookup<K>(s: Store<K>, key: K, now: int): Option<seq<byte>> {
    match Find(s, key)
    case None => None
    case Some(b) => if Expired(b, now) then None else Some(b.kv)
  }

  /** The read finds the block in swap and no room for it on the GPU. The source then calls the
      evictor, which takes the lock that the read is holding. */
  predicate NeedsRoom<K(==)>(cfg: Config, s: Store<K>, key: K, now: int) {
    key !in s.gpu && key in s.swap && !Expired(s.swap[key], now) && Overfills(cfg, s, |s.swap[key].kv|)
  }

  function Touched<K(==)>(m: map<K, Block>, key: K, now: int): map<K, Block> {
    if key in m then m[key := m[key].(accessedAt := now)] else m
  }

  function Read<K(==)>(cfg: Config, s: Store<K>, key: K, now: int, order: seq<K>): Store<K> {
    if key in s.gpu then
      if Expired(s.gpu[key], now) then Remove(s, key) else s.(gpu := Touched(s.gpu, key, now))
    else if key in s.swap then
      if Expired(s.swap[key], now) then Remove(s, key)
      else Promote(cfg, s.(swap := Touched(s.swap, key, now)), key, order)
    else s
  }

  function Unswapped<K(==)>(s: Store<K>, key: K): Store<K>
    requires key in s.swap
  {
    var b := s.swap[key];
    Store(s.gpu[key := b], s.swap - {key}, s.used + |b.kv|, s.swapUsed - |b.kv|, s.entries)
  }

  function Promote<K(==)>(cfg: Config, s: Store<K>, key: K, order: seq<K>): Store<K>
    requires key in s.swap
  {
    var room := if Overfills(cfg, s, |s.swap[key].kv|) then EvictFrom(cfg, s, order) else s;
    if key in room.swap then Unswapped(room, key) else room
  }

  function WithRefs<K(==)>(s: Store<K>, key: K, refs: nat): Store<K> {
    s.(gpu := if key in s.gpu then s.gpu[key := s.gpu[key].(refs := refs)] else s.gpu,
       swap := if key in s.swap then s.swap[key := s.swap[key].(refs := refs)] else s.swap)
  }

  // ---------------------------------------------------------------- eviction

  /** The blocks of `victims` left the GPU, each of them for swap or for good; nothing else moved. */
  ghost predicate Moved<K>(s: Store<K>, s': Store<K>, victims: seq<K>) {
    && (forall v :: v in victims ==> v in s.gpu)
    && (forall k :: k in s'.gpu ==> k in s.gpu && k !in victims)
    && (forall k :: k in s.gpu && k !in victims ==> k in s'.gpu)
    && (forall k :: k in s'.gpu ==> s'.gpu[k] == s.gpu[k])
    && (forall k :: k in s.swap ==> k in s'.swap && s'.swap[k] == s.swap[k])
    && (forall k :: k in s'.swap && k !in s.swap ==> k in victims && s'.swap[k] == s.gpu[k])
  }

  lemma MovedThen<K>(s: Store<K>, s1: Store<K>, s2: Store<K>, v: K, rest: seq<K>)
    requires Disjoint(s) && Moved(s, s1, [v]) && Moved(s1, s2, rest)
    ensures Moved(s, s2, [v] + rest)
  {
  }

  lemma EvictOneMoves<K>(cfg: Config, s: Store<K>, v: K)
    requires Disjoint(s) && v in s.gpu
    ensures Disjoint(EvictOne(cfg, s, v)) && Moved(s, EvictOne(cfg, s, v), [v])
    ensures EvictOne(cfg, s, v).used == s.used - |s.gpu[v].kv|
  {
  }

  lemma {:induction false} VictimsPrefix<K>(cfg: Config, s: Store<K>, order: seq<K>)
    ensures Victims(cfg, s, order) <= order
    decreases |order|
  {
    if order != [] && s.used > Target(cfg) {
      VictimsPrefix(cfg, EvictOne(cfg, s, order[0]), order[1..]);
    }
  }

  ghost predicate OnGpu<K>(s: Store<K>, order: seq<K>) {
    Distinct(order) && forall k :: k in order ==> k in s.gpu
  }

  lemma OnGpuTail<K>(cfg: Config, s: Store<K>, order: seq<K>)
    requires OnGpu(s, order) && order != []
    ensures OnGpu(EvictOne(cfg, s, order[0]), order[1..])
  {
    assert order == [order[0]] + order[1..];
    DistinctSplit([order[0]], order[1..]);
  }

  lemma EvictFromStep<K>(cfg: Config, s: Store<K>, order: seq<K>, i: nat)
    requires i < |order| && s.used > Target(cfg)
    ensures EvictFrom(cfg, s, order[i..]) == EvictFrom(cfg, EvictOne(cfg, s, order[i]), order[i + 1..])
  {
    assert order[i..][1..] == order[i + 1..];
  }

  /** Evicting along any list of distinct GPU blocks, whether or not it is the right list. */
  lemma {:induction false} EvictMoves<K>(cfg: Config, s: Store<K>, order: seq<K>)
    requires Disjoint(s) && OnGpu(s, order)
    ensures Disjoint(EvictFrom(cfg, s, order))
    ensures Moved(s, EvictFrom(cfg, s, order), Victims(cfg, s, order))
    ensures EvictFrom(cfg, s, order).used <= Target(cfg) || Victims(cfg, s, order) == order
    decreases |order|
  {
    if order != [] && s.used > Target(cfg) {
      var v, rest := order[0], order[1..];
      var s1 := EvictOne(cfg, s, v);
      EvictOneMoves(cfg, s, v);
      OnGpuTail(cfg, s, order);
      EvictMoves(cfg, s1, rest);
      MovedThen(s, s1, EvictFrom(cfg, s1, rest), v, Victims(cfg, s1, rest));
    }
  }

  /** The loop does not go on once the target is met. */
  lemma {:induction false} LastVictimWasNeeded<K>(cfg: Config, s: Store<K>, order: seq<K>)
    requires Disjoint(s) && OnGpu(s, order)
    requires Victims(cfg, s, order) != []
    ensures var vs := Victims(cfg, s, order);
            && vs[|vs| - 1] in s.gpu
            && EvictFrom(cfg, s, order).used + |s.gpu[vs[|vs| - 1]].kv| > cfg.maxSize * 80 / 100
    decreases |order|
  {
    var v, rest := order[0], order[1..];
    var s1 := EvictOne(cfg, s, v);
    EvictOneMoves(cfg, s, v);
    if Victims(cfg, s1, rest) != [] {
      OnGpuTail(cfg, s, order);
      LastVictimWasNeeded(cfg, s1, rest);
    }
  }

  /** The eviction contract, for arbitrary reference counts. */
  lemma EvictionContract<K>(cfg: Config, s: Store<K>, order: seq<K>)
    requires Disjoint(s) && LruOrder(s, order)
    // victims leave for swap, unchanged, or for good; everything else stays as and where it was
    ensures Disjoint(EvictFrom(cfg, s, order))
    ensures Moved(s, EvictFrom(cfg, s, order), Victims(cfg, s, order))
    // no pinned block is a victim
    ensures forall v :: v in Victims(cfg, s, order) ==> v in s.gpu && s.gpu[v].refs == 0
    // the target is met, or only pinned blocks are left
    ensures || EvictFrom(cfg, s, order).used <= cfg.maxSize * 80 / 100
            || forall k :: k in EvictFrom(cfg, s, order).gpu ==> k in s.gpu && s.gpu[k].refs > 0
    // it stops as soon as it can: with its last victim still there, the target would be missed
    ensures var vs := Victims(cfg, s, order);
            vs != [] ==> EvictFrom(cfg, s, order).used + |s.gpu[vs[|vs| - 1]].kv| > cfg.maxSize * 80 / 100
    // there is no victim where the target is met already
    ensures s.used <= cfg.maxSize * 80 / 100 ==> EvictFrom(cfg, s, order) == s
    // every victim was used no later than any unpinned survivor
    ensures forall v, k :: v in Victims(cfg, s, order) && k in EvictFrom(cfg, s, order).gpu && s.gpu[k].refs == 0 ==>
                             s.gpu[v].accessedAt <= s.gpu[k].accessedAt
  {
    EvictMoves(cfg, s, order);
    VictimsPrefix(cfg, s, order);
    var vs := Victims(cfg, s, order);
    if vs != [] {
      LastVictimWasNeeded(cfg, s, order);
    }
    forall v, k | v in vs && k in EvictFrom(cfg, s, order).gpu && s.gpu[k].refs == 0
      ensures s.gpu[v].accessedAt <= s.gpu[k].accessedAt
    {
      VictimIsOlder(s, order, |vs|, v, k);
    }
  }

  lemma VictimIsOlder<K>(s: Store<K>, order: seq<K>, n: nat, v: K, k: K)
    requires LruOrder(s, order) && n <= |order|
    requires v in order[..n] && k in s.gpu && k !in order[..n] && s.gpu[k].refs == 0
    ensures s.gpu[v].accessedAt <= s.gpu[k].accessedAt
  {
    var i :| 0 <= i < n && order[i] == v;
    assert k in order;
    var j :| 0 <= j < |order| && order[j] == k;
    assert forall m :: 0 <= m < n ==> order[m] in order[..n];
  }

  /** The first victim goes to swap exactly when swap is enabled and not yet full: its own size does not matter. */
  lemma FirstVictimToSwapIff<K>(cfg: Config, s: Store<K>, order: seq<K>)
    requires Disjoint(s) && OnGpu(s, order) && order != [] && s.used > Target(cfg)
    ensures order[0] in s.gpu
    ensures order[0] in EvictFrom(cfg, s, order).swap <==> cfg.enableSwap && s.swapUsed < cfg.swapSize
  {
    var v, rest := order[0], order[1..];
    var s1 := EvictOne(cfg, s, v);
    EvictOneMoves(cfg, s, v);
    OnGpuTail(cfg, s, order);
    EvictMoves(cfg, s1, rest);
    VictimsPrefix(cfg, s1, rest);
    assert v !in s1.gpu;
  }

  /** A victim goes to swap exactly when that is so after the victims before it. */
  lemma {:induction false} VictimGoesToSwapIff<K>(cfg: Config, s: Store<K>, order: seq<K>, i: nat)
    requires Disjoint(s) && OnGpu(s, order) && i < |Victims(cfg, s, order)|
    ensures i < |order| && order[i] in s.gpu
    ensures order[i] in EvictFrom(cfg, s, order).swap
       <==> cfg.enableSwap && EvictFrom(cfg, s, order[..i]).swapUsed < cfg.swapSize
    decreases |order|
  {
    if i == 0 {
      FirstVictimToSwapIff(cfg, s, order);
    } else {
      var s1 := EvictOne(cfg, s, order[0]);
      EvictOneMoves(cfg, s, order[0]);
      OnGpuTail(cfg, s, order);
      VictimGoesToSwapIff(cfg, s1, order[1..], i - 1);
      assert order[..i][1..] == order[1..][..i - 1];
    }
  }

  /** Swap space that could take everything loses nothing. */
  lemma {:induction false} EvictionIsLossless<K>(cfg: Config, s: Store<K>, order: seq<K>)
    requires Disjoint(s) && cfg.enableSwap && s.used + s.swapUsed <= cfg.swapSize
    ensures forall k :: Find(EvictFrom(cfg, s, order), k) == Find(s, k)
    decreases |order|
  {
    if order != [] && s.used > Target(cfg) {
      var s1 := EvictOne(cfg, s, order[0]);
      EvictionIsLossless(cfg, s1, order[1..]);
      assert forall k :: Find(s1, k) == Find(s, k);
    }
  }

  /** The sweep removes exactly the expired, unpinned GPU blocks, in whatever order it meets them, and leaves all
      others as and where they were. */
  lemma {:induction false} SweepRemovesExpired<K>(s: Store<K>, now: int, order: seq<K>)
    requires Disjoint(s)
    ensures Sweep(s, now, order).swap == s.swap
    ensures forall k :: k in Sweep(s, now, order).gpu
                   <==> k in s.gpu && !(k in order && now > s.gpu[k].expiresAt && s.gpu[k].refs == 0)
    ensures Submap(Sweep(s, now, order).gpu, s.gpu)
    decreases |order|
  {
    if order != [] {
      var s1 := if Sweepable(s, order[0], now) then Remove(s, order[0]) else s;
      assert s1.swap == s.swap && Submap(s1.gpu, s.gpu);
      SweepRemovesExpired(s1, now, order[1..]);
      assert forall k :: k in order <==> k == order[0] || k in order[1..];
    }
  }

  lemma {:induction false} SweepOneMore<K>(s: Store<K>, now: int, order: seq<K>, k: K)
    ensures var swept := Sweep(s, now, order);
            Sweep(s, now, order + [k]) == if Sweepable(swept, k, now) then Remove(swept, k) else swept
    decreases |order|
  {
    if order == [] {
      assert (order + [k])[1..] == [];
    } else {
      assert (order + [k])[1..] == order[1..] + [k];
      SweepOneMore(if Sweepable(s, order[0], now) then Remove(s, order[0]) else s, now, order[1..], k);
    }
  }

  // ---------------------------------------------------------------- the counters

  lemma RemoveStaysAccurate<K>(s: Store<K>, key: K)
    requires Accurate(s) && (key in s.gpu || key in s.swap)
    ensures Accurate(Remove(s, key))
  {
    BytesWithout(s.gpu, key);
    BytesWithout(s.swap, key);
  }

  lemma SwappedStaysAccurate<K>(s: Store<K>, key: K)
    requires Accurate(s) && key in s.gpu
    ensures Accurate(Swapped(s, key))
  {
    BytesWithout(s.gpu, key);
    BytesWith(s.swap, key, s.gpu[key]);
  }

  lemma PutStaysAccurate<K>(cfg: Config, s: Store<K>, key: K, value: seq<byte>, ttl: int, now: int)
    requires Accurate(s)
    ensures Accurate(Put(cfg, s, key, value, ttl, now))
  {
    if key in s.gpu || key in s.swap {
      RemoveStaysAccurate(s, key);
    }
    BytesWith(RemoveIfPresent(s, key).gpu, key, NewBlock(cfg, value, ttl, now));
  }

  lemma {:induction false} EvictStaysAccurate<K>(cfg: Config, s: Store<K>, order: seq<K>)
    requires Accurate(s)
    ensures Accurate(EvictFrom(cfg, s, order))
    decreases |order|
  {
    if order != [] && s.used > Target(cfg) {
      if order[0] in s.gpu {
        SwappedStaysAccurate(s, order[0]);
        RemoveStaysAccurate(s, order[0]);
      }
      EvictStaysAccurate(cfg, EvictOne(cfg, s, order[0]), order[1..]);
    }
  }

  lemma {:induction false} SweepStaysAccurate<K>(s: Store<K>, now: int, order: seq<K>)
    requires Accurate(s)
    ensures Accurate(Sweep(s, now, order))
    decreases |order|
  {
    if order != [] {
      if Sweepable(s, order[0], now) {
        RemoveStaysAccurate(s, order[0]);
        SweepStaysAccurate(Remove(s, order[0]), now, order[1..]);
      } else {
        SweepStaysAccurate(s, now, order[1..]);
      }
    }
  }

  lemma RestampStaysAccurate<K>(s: Store<K>, s': Store<K>)
    requires Accurate(s)
    requires s'.gpu.Keys == s.gpu.Keys && s'.swap.Keys == s.swap.Keys
    requires forall k :: k in s.gpu ==> s'.gpu[k].kv == s.gpu[k].kv
    requires forall k :: k in s.swap ==> s'.swap[k].kv == s.swap[k].kv
    requires s'.used == s.used && s'.swapUsed == s.swapUsed && s'.entries == s.entries
    ensures Accurate(s')
  {
    assert Sizes(s'.gpu) == Sizes(s.gpu) && Sizes(s'.swap) == Sizes(s.swap);
  }

  /** A block that is read back from swap is still there after the eviction that makes room for it. */
  lemma EvictionKeepsSwap<K>(cfg: Config, s: Store<K>, order: seq<K>, key: K)
    requires Disjoint(s) && key in s.swap
    ensures var s' := EvictFrom(cfg, s, order);
            Disjoint(s') && key in s'.swap && key !in s'.gpu && s'.swap[key] == s.swap[key]
    decreases |order|
  {
    if order != [] && s.used > Target(cfg) {
      EvictionKeepsSwap(cfg, EvictOne(cfg, s, order[0]), order[1..], key);
    }
  }

  // ---------------------------------------------------------------- what an operation comes to

  /** The key has this block, on the GPU or in swap. */
  ghost predicate Has<K>(s: Store<K>, key: K, b: Block) {
    (key in s.gpu && s.gpu[key] == b) || (key in s.swap && s.swap[key] == b)
  }

  /** Both maps have the same under the key. */
  ghost predicate SameAt<K>(s: Store<K>, s': Store<K>, k: K) {
    && (k in s'.gpu <==> k in s.gpu) && (k in s.gpu ==> s'.gpu[k] == s.gpu[k])
    && (k in s'.swap <==> k in s.swap) && (k in s.swap ==> s'.swap[k] == s.swap[k])
  }

  /** A lookup finds exactly what is stored and has not expired. */
  lemma LookupIff<K>(s: Store<K>, key: K, now: int, value: seq<byte>)
    requires Disjoint(s)
    ensures Lookup(s, key, now) == Some(value)
       <==> exists b {:trigger Has(s, key, b)} :: Has(s, key, b) && b.kv == value && now <= b.expiresAt
  {
    if Find(s, key).Some? {
      assert Has(s, key, Find(s, key).value);
    }
  }

  /** What was set is there until its time is up, stamped with the moment it was set; nothing else changes. */
  lemma SetThenGet<K>(cfg: Config, s: Store<K>, key: K, value: seq<byte>, ttl: int, now: int, later: int)
    ensures var s', end := Put(cfg, s, key, value, ttl, now), now + if ttl == 0 then cfg.defaultTTL else ttl;
            && key in s'.gpu && s'.gpu[key] == Block(value, now, now, end, 0) && key !in s'.swap
            && Lookup(s', key, later) == (if later <= end then Some(value) else None)
            && forall k :: k != key ==> SameAt(s, s', k)
  {
    assert forall k :: k != key ==> SameAt(s, RemoveIfPresent(s, key), k);
  }

  /** The same on the maps as a whole. */
  lemma PutReplaces<K>(cfg: Config, s: Store<K>, key: K, value: seq<byte>, ttl: int, now: int)
    ensures var s', end := Put(cfg, s, key, value, ttl, now), now + if ttl == 0 then cfg.defaultTTL else ttl;
            s'.gpu == s.gpu[key := Block(value, now, now, end, 0)] && s'.swap == s.swap - {key}
    ensures RemoveIfPresent(s, key).used == s.used - SizeAt(s.gpu, key)
  {
  }

  lemma DeleteTakesOnly<K>(s: Store<K>, key: K)
    ensures var s' := RemoveIfPresent(s, key);
            key !in s'.gpu && key !in s'.swap && forall k :: k != key ==> SameAt(s, s', k)
  {
  }

  /** A read that finds a block in time leaves it on the GPU, just used, and otherwise as it was. */
  lemma ReadStamps<K>(cfg: Config, s: Store<K>, key: K, now: int, order: seq<K>, b: Block)
    requires Disjoint(s) && Has(s, key, b) && now <= b.expiresAt
    ensures var s' := Read(cfg, s, key, now, order);
            key in s'.gpu && s'.gpu[key] == b.(accessedAt := now) && key !in s'.swap
  {
    if key in s.swap {
      EvictionKeepsSwap(cfg, s.(swap := Touched(s.swap, key, now)), order, key);
    }
  }

  /** A read that comes too late drops the block, and one that finds nothing changes nothing. */
  lemma ReadDrops<K>(cfg: Config, s: Store<K>, key: K, now: int, order: seq<K>)
    requires Disjoint(s) && forall b {:trigger Has(s, key, b)} :: Has(s, key, b) ==> now > b.expiresAt
    ensures var s' := Read(cfg, s, key, now, order);
            && key !in s'.gpu && key !in s'.swap && (forall k :: k != key ==> SameAt(s, s', k))
            && (key !in s.gpu && key !in s.swap ==> s' == s)
  {
    assert key in s.gpu ==> Has(s, key, s.gpu[key]);
    assert key in s.swap ==> Has(s, key, s.swap[key]);
  }

  /** A read changes no other block, unless it has to make room for the one that it moves back: then the others
      are as an eviction leaves them. */
  lemma ReadLeavesOthers<K>(cfg: Config, s: Store<K>, key: K, now: int, order: seq<K>, k: K)
    requires Disjoint(s) && k != key
    ensures var evicts := key in s.swap && now <= s.swap[key].expiresAt && s.used + |s.swap[key].kv| > cfg.maxSize;
            SameAt(if evicts then EvictFrom(cfg, s, order) else s, Read(cfg, s, key, now, order), k)
  {
    if key in s.swap {
      EvictionIgnoresSwap(cfg, s, order, key, s.swap[key].(accessedAt := now));
      EvictionKeepsSwap(cfg, s, order, key);
    }
  }

  /** Whatever the list, no GPU block changes but those that leave. */
  lemma {:induction false} EvictionOnlyRemoves<K>(cfg: Config, s: Store<K>, order: seq<K>)
    ensures Submap(EvictFrom(cfg, s, order).gpu, s.gpu)
    decreases |order|
  {
    if order != [] && s.used > Target(cfg) {
      EvictionOnlyRemoves(cfg, EvictOne(cfg, s, order[0]), order[1..]);
    }
  }

  /** What was read last goes last: an eviction that takes it has left no other unpinned block. */
  lemma ReadGoesLast<K>(cfg: Config, s: Store<K>, key: K, now: int, order: seq<K>, b: Block, lru: seq<K>)
    requires Disjoint(s) && Has(s, key, b) && now <= b.expiresAt
    requires forall k :: k in s.gpu ==> s.gpu[k].accessedAt < now
    requires LruOrder(Read(cfg, s, key, now, order), lru)
    ensures var s' := Read(cfg, s, key, now, order);
            key in Victims(cfg, s', lru) ==>
              forall k :: k in EvictFrom(cfg, s', lru).gpu ==> k in s'.gpu && s'.gpu[k].refs > 0
  {
    var s' := Read(cfg, s, key, now, order);
    ReadStamps(cfg, s, key, now, order, b);
    forall k | k in s'.gpu && k != key
      ensures s'.gpu[k].accessedAt < now
    {
      ReadLeavesOthers(cfg, s, key, now, order, k);
      EvictionOnlyRemoves(cfg, s, order);
    }
    ReadStaysDisjoint(cfg, s, key, now, order);
    EvictionContract(cfg, s', lru);
  }

  lemma ReadStaysDisjoint<K>(cfg: Config, s: Store<K>, key: K, now: int, order: seq<K>)
    requires Disjoint(s)
    ensures Disjoint(Read(cfg, s, key, now, order))
  {
    if key !in s.gpu && key in s.swap && !Expired(s.swap[key], now) {
      EvictionKeepsSwap(cfg, s.(swap := Touched(s.swap, key, now)), order, key);
    }
  }

  // ---------------------------------------------------------------- reading back

  function WithSwapped<K(==)>(s: Store<K>, key: K, b: Block): Store<K> {
    s.(swap := s.swap[key := b])
  }

  /** An eviction does not look at blocks in swap. */
  lemma {:induction false} EvictionIgnoresSwap<K>(cfg: Config, s: Store<K>, order: seq<K>, key: K, b: Block)
    requires Disjoint(s) && key in s.swap
    ensures EvictFrom(cfg, WithSwapped(s, key, b), order) == WithSwapped(EvictFrom(cfg, s, order), key, b)
    decreases |order|
  {
    if order != [] && s.used > Target(cfg) {
      var v := order[0];
      assert EvictOne(cfg, WithSwapped(s, key, b), v) == WithSwapped(EvictOne(cfg, s, v), key, b);
      EvictionIgnoresSwap(cfg, EvictOne(cfg, s, v), order[1..], key, b);
    }
  }

  lemma HeldInSwap<K>(cfg: Config, s: Store<K>, key: K, order: seq<K>, refs: nat)
    requires Disjoint(s) && key in s.swap
    ensures var b := s.swap[key];
            Promote(cfg, s, key, order)
              == WithRefs(Promote(cfg, WithSwapped(s, key, b.(refs := refs)), key, order), key, b.refs)
  {
    EvictionIgnoresSwap(cfg, s, order, key, s.swap[key].(refs := refs));
    EvictionKeepsSwap(cfg, s, order, key);
  }

  /** The reference that a read takes on its block before it moves it, and gives back after, leaves no trace. */
  lemma ReferenceLeavesNoTrace<K>(cfg: Config, s: Store<K>, key: K, now: int, order: seq<K>, b: Block)
    requires Disjoint(s) && Find(s, key) == Some(b) && !Expired(b, now)
    ensures var held := WithRefs(s, key, b.refs + 1);
            && Read(cfg, s, key, now, order) == WithRefs(Read(cfg, held, key, now, order), key, b.refs)
            && (NeedsRoom(cfg, held, key, now) <==> NeedsRoom(cfg, s, key, now))
  {
    if key in s.swap {
      var held, t := WithRefs(s, key, b.refs + 1), s.(swap := Touched(s.swap, key, now));
      HeldInSwap(cfg, t, key, order, b.refs + 1);
      assert held.(swap := Touched(held.swap, key, now)) == WithSwapped(t, key, t.swap[key].(refs := b.refs + 1));
    }
  }

  lemma PromoteStaysAccurate<K>(cfg: Config, s: Store<K>, key: K, order: seq<K>)
    requires Accurate(s) && key in s.swap
    ensures Accurate(Promote(cfg, s, key, order))
  {
    EvictStaysAccurate(cfg, s, order);
    EvictionKeepsSwap(cfg, s, order, key);
    var room := if Overfills(cfg, s, |s.swap[key].kv|) then EvictFrom(cfg, s, order) else s;
    BytesWith(room.gpu, key, s.swap[key]);
    BytesWithout(room.swap, key);
  }

  lemma TouchStaysAccurate<K>(s: Store<K>, key: K, now: int)
    requires Accurate(s)
    ensures Accurate(s.(gpu := Touched(s.gpu, key, now)))
    ensures Accurate(s.(swap := Touched(s.swap, key, now)))
  {
    RestampStaysAccurate(s, s.(gpu := Touched(s.gpu, key, now)));
    RestampStaysAccurate(s, s.(swap := Touched(s.swap, key, now)));
  }

  lemma ReadStaysAccurate<K>(cfg: Config, s: Store<K>, key: K, now: int, order: seq<K>)
    requires Accurate(s)
    ensures Accurate(Read(cfg, s, key, now, order))
  {
    if Lookup(s, key, now).Some? {
      TouchStaysAccurate(s, key, now);
      if key !in s.gpu {
        PromoteStaysAccurate(cfg, s.(swap := Touched(s.swap, key, now)), key, order);
      }
    } else if key in s.gpu || key in s.swap {
      RemoveStaysAccurate(s, key);
    }
  }

  ghost function Pinned<K>(m: map<K, Block>): map<K, Block> {
    map k | k in m && m[k].refs > 0 :: m[k]
  }

  lemma {:induction false} BytesOfFewer<K>(a: map<K, Block>, b: map<K, Block>)
    requires Submap(a, b)
    ensures Bytes(a) <= Bytes(b)
    decreases |b|
  {
    if b == map[] {
      assert a == b;
    } else {
      var k :| k in b;
      BytesWithout(a, k);
      BytesWithout(b, k);
      BytesOfFewer(a - {k}, b - {k});
    }
  }

  /** After an eviction the GPU holds no more than the target, or than what is pinned there. */
  lemma EvictedBytes<K>(cfg: Config, s: Store<K>, order: seq<K>)
    requires Accurate(s) && LruOrder(s, order)
    ensures EvictFrom(cfg, s, order).used <= Max(Target(cfg), Bytes(Pinned(s.gpu)))
  {
    EvictionContract(cfg, s, order);
    EvictStaysAccurate(cfg, s, order);
    var room := EvictFrom(cfg, s, order);
    if room.used > Target(cfg) {
      BytesOfFewer(room.gpu, Pinned(s.gpu));
    }
  }

  /** What a read promotes ends up on the GPU, within its size or within the block itself and the eviction
      target or, where they are more, the bytes that are pinned there. */
  lemma PromotionBound<K>(cfg: Config, s: Store<K>, key: K, now: int, order: seq<K>)
    requires Accurate(s) && key in s.swap && !Expired(s.swap[key], now)
    requires NeedsRoom(cfg, s, key, now) && s.used > Target(cfg) ==> LruOrder(s, order)
    ensures var s' := Read(cfg, s, key, now, order);
            var size := |s.swap[key].kv|;
            && key in s'.gpu && s'.gpu[key].kv == s.swap[key].kv && key !in s'.swap
            && (s'.used <= cfg.maxSize || s'.used <= Max(cfg.maxSize * 80 / 100, Bytes(Pinned(s.gpu))) + size)
  {
    var t := s.(swap := Touched(s.swap, key, now));
    RestampStaysAccurate(s, t);
    if NeedsRoom(cfg, s, key, now) && s.used > Target(cfg) {
      assert LruOrder(t, order);
      EvictedBytes(cfg, t, order);
      EvictionKeepsSwap(cfg, t, order, key);
    }
  }
}

/** Whole runs of the block store. */
module PrefixStoreRuns {
  import opened Common
  import opened LossyMaps
  import opened PrefixStoreSpec

  /** One atomic operation. `Refs` stands for readers in flight: they raise and lower a block's
      reference count outside the lock, so a run may give a block any count at any time. */
  datatype Op<K> =
    | Set(key: K, value: seq<byte>, ttl: int, now: int)
    | Get(key: K, now: int, order: seq<K>)
    | Delete(key: K)
    | Clear
    | EvictExpired(now: int, order: seq<K>)
    | EvictLRU(order: seq<K>)
    | Refs(key: K, refs: nat)

  function Apply<K(==)>(cfg: Config, s: Store<K>, op: Op<K>): Store<K> {
    match op
    case Set(key, value, ttl, now) => Put(cfg, s, key, value, ttl, now)
    case Get(key, now, order) => Read(cfg, s, key, now, order)
    case Delete(key) => RemoveIfPresent(s, key)
    case Clear => EmptyStore()
    case EvictExpired(now, order) => Sweep(s, now, order)
    case EvictLRU(order) => EvictFrom(cfg, s, order)
    case Refs(key, refs) => WithRefs(s, key, refs)
  }

  /** Where the operation picks an order, it is one that the code can come up with. */
  ghost predicate Legal<K>(cfg: Config, s: Store<K>, op: Op<K>) {
    match op
    case Get(key, now, order) => NeedsRoom(cfg, s, key, now) && s.used > Target(cfg) ==> LruOrder(s, order)
    case EvictExpired(_, order) => Enumerates(s, order)
    case EvictLRU(order) => s.used > Target(cfg) ==> LruOrder(s, order)
    case _ => true
  }

  function Run<K(==)>(cfg: Config, ops: seq<Op<K>>): Store<K> {
    if ops == [] then EmptyStore() else Apply(cfg, Run(cfg, ops[..|ops| - 1]), ops[|ops| - 1])
  }

  ghost predicate LegalRun<K>(cfg: Config, ops: seq<Op<K>>) {
    ops != [] ==> LegalRun(cfg, ops[..|ops| - 1]) && Legal(cfg, Run(cfg, ops[..|ops| - 1]), ops[|ops| - 1])
  }

  function EffectOf<K>(op: Op<K>): Effect<K> {
    match op
    case Set(key, value, _, _) => Stored(key, value)
    case Delete(key) => Removed(key)
    case Clear => Cleared
    case _ => Kept
  }

  /** What a map would hold: the last value set under each key and not deleted since. */
  function Latest<K(==)>(ops: seq<Op<K>>): map<K, seq<byte>> {
    if ops == [] then map[] else Update(Latest(ops[..|ops| - 1]), EffectOf(ops[|ops| - 1]))
  }

  /** No block ever stored was larger than `m`. */
  ghost predicate StoredAtMost<K>(ops: seq<Op<K>>, m: nat) {
    forall op :: op in ops && op.Set? ==> |op.value| <= m
  }

  ghost predicate Agrees<K>(s: Store<K>, latest: map<K, seq<byte>>) {
    && (forall k :: k in s.gpu ==> k in latest && s.gpu[k].kv == latest[k])
    && (forall k :: k in s.swap ==> k in latest && s.swap[k].kv == latest[k])
  }

  ghost predicate AtMost<K>(s: Store<K>, m: nat) {
    && (forall k :: k in s.gpu ==> |s.gpu[k].kv| <= m)
    && (forall k :: k in s.swap ==> |s.swap[k].kv| <= m)
  }

  ghost predicate SwapBounded<K>(cfg: Config, s: Store<K>, m: nat) {
    if cfg.enableSwap && cfg.swapSize > 0 then s.swapUsed <= cfg.swapSize - 1 + m
    else s.swap == map[] && s.swapUsed == 0
  }

  ghost predicate Contained<K>(cfg: Config, s: Store<K>, latest: map<K, seq<byte>>, m: nat) {
    Disjoint(s) && Agrees(s, latest) && AtMost(s, m) && SwapBounded(cfg, s, m)
  }

  lemma {:induction false} EvictionContained<K>(cfg: Config, s: Store<K>, order: seq<K>, latest: map<K, seq<byte>>,
                                                m: nat)
    requires Contained(cfg, s, latest, m)
    ensures Contained(cfg, EvictFrom(cfg, s, order), latest, m)
    decreases |order|
  {
    if order != [] && s.used > Target(cfg) {
      EvictionContained(cfg, EvictOne(cfg, s, order[0]), order[1..], latest, m);
    }
  }

  lemma {:induction false} SweepContained<K>(cfg: Config, s: Store<K>, now: int, order: seq<K>,
                                             latest: map<K, seq<byte>>, m: nat)
    requires Contained(cfg, s, latest, m)
    ensures Contained(cfg, Sweep(s, now, order), latest, m)
    decreases |order|
  {
    if order != [] {
      SweepContained(cfg, if Sweepable(s, order[0], now) then Remove(s, order[0]) else s, now, order[1..], latest, m);
    }
  }

  lemma ReadContained<K>(cfg: Config, s: Store<K>, key: K, now: int, order: seq<K>, latest: map<K, seq<byte>>, m: nat)
    requires Contained(cfg, s, latest, m)
    ensures Contained(cfg, Read(cfg, s, key, now, order), latest, m)
  {
    if key !in s.gpu && key in s.swap && !Expired(s.swap[key], now) {
      var t := s.(swap := Touched(s.swap, key, now));
      assert Contained(cfg, t, latest, m);
      EvictionContained(cfg, t, order, latest, m);
      EvictionKeepsSwap(cfg, t, order, key);
    }
  }

  lemma StepContained<K>(cfg: Config, s: Store<K>, op: Op<K>, latest: map<K, seq<byte>>, m: nat)
    requires Contained(cfg, s, latest, m) && (op.Set? ==> |op.value| <= m)
    ensures Contained(cfg, Apply(cfg, s, op), Update(latest, EffectOf(op)), m)
  {
    match op {
      case Set(_, _, _, _) =>
      case Get(key, now, order) => ReadContained(cfg, s, key, now, order, latest, m);
      case Delete(_) =>
      case Clear =>
      case EvictExpired(now, order) => SweepContained(cfg, s, now, order, latest, m);
      case EvictLRU(order) => EvictionContained(cfg, s, order, latest, m);
      case Refs(_, _) =>
    }
  }

  /** In every run: GPU and swap hold different keys, every stored block is the latest one set under
      its key, and swap never outgrows its size by a whole block. */
  lemma {:induction false} RunContained<K>(cfg: Config, ops: seq<Op<K>>, m: nat)
    requires StoredAtMost(ops, m)
    ensures Contained(cfg, Run(cfg, ops), Latest(ops), m)
  {
    if ops != [] {
      var before, op := ops[..|ops| - 1], ops[|ops| - 1];
      assert op in ops;
      assert StoredAtMost(before, m);
      RunContained(cfg, before, m);
      StepContained(cfg, Run(cfg, before), op, Latest(before), m);
    }
  }

  /** What the cache holds, on the GPU or in swap. */
  ghost function Contents<K>(s: Store<K>): map<K, seq<byte>> {
    map k | k in s.gpu.Keys + s.swap.Keys :: if k in s.gpu then s.gpu[k].kv else s.swap[k].kv
  }

  /** Every single operation is a step of a map that may forget. */
  lemma StepIsLossy<K>(cfg: Config, s: Store<K>, op: Op<K>, latest: map<K, seq<byte>>, m: nat)
    requires Contained(cfg, s, latest, m) && (op.Set? ==> |op.value| <= m)
    ensures Lossy(Contents(s), EffectOf(op), Contents(Apply(cfg, s, op)))
  {
    StepContained(cfg, s, op, Contents(s), m);
  }

  lemma StepAccurate<K>(cfg: Config, s: Store<K>, op: Op<K>)
    requires Accurate(s)
    ensures Accurate(Apply(cfg, s, op))
  {
    match op {
      case Set(key, value, ttl, now) => PutStaysAccurate(cfg, s, key, value, ttl, now);
      case Get(key, now, order) => ReadStaysAccurate(cfg, s, key, now, order);
      case Delete(key) =>
        if key in s.gpu || key in s.swap {
          RemoveStaysAccurate(s, key);
        }
      case Clear => BytesOfNone<K>(map[]);
      case EvictExpired(now, order) => SweepStaysAccurate(s, now, order);
      case EvictLRU(order) => EvictStaysAccurate(cfg, s, order);
      case Refs(key, refs) => RestampStaysAccurate(s, WithRefs(s, key, refs));
    }
  }

  /** In every run the counters are the true sums and the true count. */
  lemma {:induction false} RunAccurate<K>(cfg: Config, ops: seq<Op<K>>)
    ensures Accurate(Run(cfg, ops))
  {
    if ops == [] {
      BytesOfNone<K>(map[]);
    } else {
      RunAccurate(cfg, ops[..|ops| - 1]);
      StepAccurate(cfg, Run(cfg, ops[..|ops| - 1]), ops[|ops| - 1]);
    }
  }

  /** Whatever moved between GPU and swap, was evicted or expired: a lookup after any run misses or
      returns exactly the latest value. */
  lemma LookupIsLatest<K>(cfg: Config, ops: seq<Op<K>>, key: K, now: int)
    ensures var r := Lookup(Run(cfg, ops), key, now);
            r == None || (key in Latest(ops) && r == Some(Latest(ops)[key]))
  {
    var m := LargestStored(ops);
    RunContained(cfg, ops, m);
  }

  lemma {:induction false} LatestWasSet<K>(ops: seq<Op<K>>, key: K) returns (i: nat)
    requires key in Latest(ops)
    ensures i < |ops| && ops[i].Set? && ops[i].key == key && ops[i].value == Latest(ops)[key]
    ensures forall j :: i < j < |ops| ==> !ops[j].Clear? && ops[j] != Delete(key) && !(ops[j].Set? && ops[j].key == key)
  {
    var n := |ops| - 1;
    if ops[n].Set? && ops[n].key == key {
      i := n;
    } else {
      i := LatestWasSet(ops[..n], key);
    }
  }

  /** So what a lookup finds is what the last `Set` of the key stored, and nothing has deleted it since. */
  lemma LookupWasSet<K>(cfg: Config, ops: seq<Op<K>>, key: K, now: int) returns (i: nat)
    requires Lookup(Run(cfg, ops), key, now).Some?
    ensures i < |ops| && ops[i].Set? && ops[i].key == key && Some(ops[i].value) == Lookup(Run(cfg, ops), key, now)
    ensures forall j :: i < j < |ops| ==> !ops[j].Clear? && ops[j] != Delete(key) && !(ops[j].Set? && ops[j].key == key)
  {
    LookupIsLatest(cfg, ops, key, now);
    i := LatestWasSet(ops, key);
  }

  lemma {:induction false} LargestStored<K>(ops: seq<Op<K>>) returns (m: nat)
    ensures StoredAtMost(ops, m)
  {
    if ops == [] {
      m := 0;
    } else {
      var op := ops[|ops| - 1];
      m := LargestStored(ops[..|ops| - 1]);
      if op.Set? && |op.value| > m {
        m := |op.value|;
      }
      assert ops == ops[..|ops| - 1] + [op];
    }
  }

  lemma RunStep<K>(cfg: Config, ops: seq<Op<K>>, op: Op<K>)
    ensures Run(cfg, ops + [op]) == Apply(cfg, Run(cfg, ops), op)
    ensures LegalRun(cfg, ops + [op]) <==> LegalRun(cfg, ops) && Legal(cfg, Run(cfg, ops), op)
  {
    assert (ops + [op])[..|ops|] == ops;
  }

  const OLDER := "0000000000000000"
  const NEWER := "1111111111111111"

  /** Runs do reach a read that evicts under its own lock: two blocks of six bytes in ten, the older
      one pushed out to swap and then read again. */
  lemma ReadMayNeedRoom() returns (cfg: Config, ops: seq<Op<string>>)
    ensures LegalRun(cfg, ops) && NeedsRoom(cfg, Run(cfg, ops), OLDER, 3)
  {
    assert OLDER[0] != NEWER[0];
    cfg := Config(10, 100, true, 10);
    var v := [0, 0, 0, 0, 0, 0];
    var a, b := NewBlock(cfg, v, 0, 1), NewBlock(cfg, v, 0, 2);
    var ops1 := [Set(OLDER, v, 0, 1)];
    RunStep(cfg, [], Set(OLDER, v, 0, 1));
    assert [] + ops1 == ops1;
    assert Run(cfg, ops1) == Store(map[OLDER := a], map[], 6, 0, 1);
    var ops2 := ops1 + [Set(NEWER, v, 0, 2)];
    RunStep(cfg, ops1, Set(NEWER, v, 0, 2));
    var s2 := Store(map[OLDER := a, NEWER := b], map[], 12, 0, 2);
    assert Run(cfg, ops2) == s2;
    ops := ops2 + [EvictLRU([OLDER, NEWER])];
    RunStep(cfg, ops2, EvictLRU([OLDER, NEWER]));
    assert LruOrder(s2, [OLDER, NEWER]);
    var s3 := EvictOne(cfg, s2, OLDER);
    assert EvictFrom(cfg, s2, [OLDER, NEWER]) == EvictFrom(cfg, s3, [OLDER, NEWER][1..]) == s3;
  }
}
