/** The prefix cache as its own objects: shared blocks, three maps over them, counters and a tree. */
module PrefixCaches {
  import opened Common
  import opened PrefixStoreSpec
  import opened PrefixTreeSpec
  import opened PrefixTrees
  import opened PrefixBlocks
  import opened PrefixInsertion
  import opened Sorting

  class PrefixCacheBlock<K> {
    const hash: K
    const kvCache: seq<byte>
    const size: nat
    const createdAt: int
    const expiresAt: int
    var accessedAt: int
    var refCount: nat
    var inGPU: bool
    var inSwap: bool

    constructor (hash: K, kvCache: seq<byte>, now: int, ttl: int)
      ensures this.hash == hash && this.kvCache == kvCache && size == |kvCache|
      ensures View() == Block(kvCache, now, now, now + ttl, 0)
      ensures inGPU && !inSwap
    {
      this.hash, this.kvCache, size := hash, kvCache, |kvCache|;
      createdAt, accessedAt, expiresAt := now, now, now + ttl;
      refCount, inGPU, inSwap := 0, true, false;
    }

    method SetPlace(inGPU: bool, inSwap: bool)
      modifies this`inGPU, this`inSwap
      ensures this.inGPU == inGPU && this.inSwap == inSwap
    {
      this.inGPU, this.inSwap := inGPU, inSwap;
    }

    ghost function View(): Block
      reads this`accessedAt, this`refCount
    {
      Block(kvCache, createdAt, accessedAt, expiresAt, refCount)
    }
  }

  /** The three maps hold the same objects: every stored block, the GPU blocks, the blocks in swap. */
  ghost predicate MapsMatch<K>(all: map<K, PrefixCacheBlock<K>>, gpu: map<K, PrefixCacheBlock<K>>,
                            swap: map<K, PrefixCacheBlock<K>>, s: Store<K>)
  {
    && Disjoint(s)
    && (forall k :: k in gpu ==> k in s.gpu && k in all && gpu[k] == all[k])
    && (forall k :: k in swap ==> k in s.swap && k in all && swap[k] == all[k])
    && (forall k :: k in s.gpu ==> k in gpu)
    && (forall k :: k in s.swap ==> k in swap)
    && (forall k :: k in all ==> k in s.gpu || k in s.swap)
  }

  lemma SwapKeepsMatch<K>(all: map<K, PrefixCacheBlock<K>>, gpu: map<K, PrefixCacheBlock<K>>,
                          swap: map<K, PrefixCacheBlock<K>>, s: Store<K>, hash: K, block: PrefixCacheBlock<K>)
    requires MapsMatch(all, gpu, swap, s) && hash in gpu && block == gpu[hash]
    ensures hash in all && all[hash] == block && hash in s.gpu
    ensures MapsMatch(all, gpu - {hash}, swap[hash := block], Swapped(s, hash))
  {
  }

  lemma UnswapKeepsMatch<K>(all: map<K, PrefixCacheBlock<K>>, gpu: map<K, PrefixCacheBlock<K>>,
                            swap: map<K, PrefixCacheBlock<K>>, s: Store<K>, hash: K, block: PrefixCacheBlock<K>)
    requires MapsMatch(all, gpu, swap, s) && hash in s.swap && hash in all && block == all[hash]
    ensures MapsMatch(all, gpu[hash := block], swap - {hash}, Unswapped(s, hash))
  {
  }

  lemma AddKeepsMatch<K>(all: map<K, PrefixCacheBlock<K>>, gpu: map<K, PrefixCacheBlock<K>>,
                         swap: map<K, PrefixCacheBlock<K>>, s: Store<K>, hash: K, block: PrefixCacheBlock<K>, v: Block)
    requires MapsMatch(all, gpu, swap, s) && hash !in all
    ensures MapsMatch(all[hash := block], gpu[hash := block], swap, AddNew(s, hash, v))
  {
  }

  function Dropped<K(==), V>(m: map<K, V>, k: K, gone: bool): map<K, V> {
    if gone then m - {k} else m
  }

  lemma RemoveKeepsMatch<K>(all: map<K, PrefixCacheBlock<K>>, gpu: map<K, PrefixCacheBlock<K>>,
                            swap: map<K, PrefixCacheBlock<K>>, s: Store<K>, hash: K, inGPU: bool, inSwap: bool)
    requires MapsMatch(all, gpu, swap, s) && hash in all && inGPU == (hash in s.gpu) && inSwap == (hash in s.swap)
    ensures MapsMatch(all - {hash}, Dropped(gpu, hash, inGPU), Dropped(swap, hash, inSwap), Remove(s, hash))
  {
  }

  /** A stored block knows its key, and where it is. */
  ghost predicate Stored<K>(k: K, b: PrefixCacheBlock<K>, s: Store<K>)
    reads b
  {
    && b.hash == k && b.size == |b.kvCache|
    && b.inGPU == (k in s.gpu) && b.inSwap == (k in s.swap)
    && (k in s.gpu ==> b.View() == s.gpu[k]) && (k in s.swap ==> b.View() == s.swap[k])
  }

  datatype BlockInfo<!K> = BlockInfo(hash: K, block: PrefixCacheBlock<K>, accessedAt: int)

  ghost function Hashes<K>(infos: seq<BlockInfo<K>>): seq<K> {
    seq(|infos|, i requires 0 <= i < |infos| => infos[i].hash)
  }

  datatype PrefixCacheConfig =
    PrefixCacheConfig(blockSize: int, maxPrefixLength: int, minPrefixLength: int, enableSwap: bool,
                      swapSpaceSize: Option<int>)

  /** A setting, or what stands in for one that is not given. */
  function PositiveOr(n: int, default: nat): nat {
    if n > 0 then n else default
  }

  datatype CacheEntry = CacheEntry(value: seq<byte>, size: nat, createdAt: int, accessedAt: int)

  class PrefixCache<K(==)> {
    const cfg: Config
    const digest: seq<byte> -> K
    const blockSize: nat
    const maxPrefixLen: nat
    const minPrefixLen: nat
    const tree: PrefixTree<K, PrefixCacheBlock<K>>
    var gpuBlocks: map<K, PrefixCacheBlock<K>>
    var swapBlocks: map<K, PrefixCacheBlock<K>>
    var usedSize: int
    var swapUsed: int
    var entries: int
    var hits: nat
    var misses: nat
    /** How many background evictions `Set` has asked for. */
    var evictionsAsked: nat

    /** What the maps and counters stand for, and the block objects they are made of. */
    ghost var store: Store<K>

    ghost predicate StoreValid()
      reads this, tree`blocks, tree.blocks.Values
    {
      && MapsMatch(tree.blocks, gpuBlocks, swapBlocks, store)
      && (forall k :: k in tree.blocks ==> Stored(k, tree.blocks[k], store))
      && usedSize == store.used && swapUsed == store.swapUsed && entries == store.entries
    }

    ghost predicate Valid()
      reads this, tree, tree.blocks.Values, tree.nodes.Values
    {
      && StoreValid() && tree.Valid()
      && blockSize > 0 && maxPrefixLen > 0 && minPrefixLen > 0 && Within(tree.log, blockSize)
    }

    constructor (size: nat, ttl: int, config: Option<PrefixCacheConfig>, digest: seq<byte> -> K)
      ensures Valid() && store == EmptyStore() && tree.log == []
      ensures fresh(tree) && fresh(tree.nodes.Values)
      ensures this.digest == digest
      ensures cfg.maxSize == size && cfg.defaultTTL == if ttl == 0 then 3600 * 1_000_000_000 else ttl
      ensures config == None ==> blockSize == 16 && maxPrefixLen == 2048 && minPrefixLen == 32
      ensures config.Some? ==> blockSize == if config.value.blockSize > 0 then config.value.blockSize else 16
      ensures config.Some? ==>
                maxPrefixLen == if config.value.maxPrefixLength > 0 then config.value.maxPrefixLength else 2048
      ensures config.Some? ==>
                minPrefixLen == if config.value.minPrefixLength > 0 then config.value.minPrefixLength else 32
      ensures cfg.enableSwap == (config.Some? ==> config.value.enableSwap)
      ensures cfg.swapSize
           == if config.Some? && config.value.swapSpaceSize.Some? then config.value.swapSpaceSize.value else 0
    {
      var c := if config.Some? then config.value else PrefixCacheConfig(0, 0, 0, true, None);
      blockSize := PositiveOr(c.blockSize, 16);
      maxPrefixLen := PositiveOr(c.maxPrefixLength, 2048);
      minPrefixLen := PositiveOr(c.minPrefixLength, 32);
      cfg := Config(size, if ttl == 0 then 3600 * 1_000_000_000 else ttl, c.enableSwap,
                    if c.swapSpaceSize.Some? then c.swapSpaceSize.value else 0);
      this.digest := digest;
      tree := new PrefixTree<K, PrefixCacheBlock<K>>();
      gpuBlocks, swapBlocks := map[], map[];
      usedSize, swapUsed, entries, hits, misses, evictionsAsked := 0, 0, 0, 0, 0, 0;
      store := EmptyStore();
    }

    // -------------------------------------------------------------- moving one block

    method MoveToSwap(hash: K, block: PrefixCacheBlock<K>)
      requires StoreValid() && hash in gpuBlocks && block == gpuBlocks[hash]
      modifies this`gpuBlocks, this`swapBlocks, this`usedSize, this`swapUsed, this`store, block`inGPU, block`inSwap
      ensures StoreValid() && store == Swapped(old(store), hash)
    {
      SwapKeepsMatch(tree.blocks, gpuBlocks, swapBlocks, store, hash, block);
      assert Stored(hash, block, store);
      block.SetPlace(false, true);
      FileInSwap(hash, block);
      store := Swapped(store, hash);
      forall k | k in tree.blocks
        ensures Stored(k, tree.blocks[k], store)
      {
        assert k != hash ==> old(Stored(k, tree.blocks[k], store));
      }
    }

    method FileInSwap(hash: K, block: PrefixCacheBlock<K>)
      modifies this`gpuBlocks, this`swapBlocks, this`usedSize, this`swapUsed
      ensures gpuBlocks == old(gpuBlocks) - {hash} && swapBlocks == old(swapBlocks)[hash := block]
      ensures usedSize == old(usedSize) - block.size && swapUsed == old(swapUsed) + block.size
    {
      gpuBlocks := gpuBlocks - {hash};
      swapBlocks := swapBlocks[hash := block];
      usedSize := usedSize - block.size;
      swapUsed := swapUsed + block.size;
    }

    method RemoveBlock(hash: K, block: PrefixCacheBlock<K>)
      requires StoreValid() && hash in tree.blocks && block == tree.blocks[hash]
      modifies this`gpuBlocks, this`swapBlocks, this`usedSize, this`swapUsed, this`entries, this`store, tree`blocks
      ensures StoreValid() && store == Remove(old(store), hash)
      ensures tree.blocks == old(tree.blocks) - {hash}
    {
      assert Stored(hash, block, store);
      RemoveKeepsMatch(tree.blocks, gpuBlocks, swapBlocks, store, hash, block.inGPU, block.inSwap);
      TakeOff(hash, block);
      tree.blocks := tree.blocks - {hash};
      entries := entries - 1;
      store := Remove(store, hash);
      forall k | k in tree.blocks
        ensures Stored(k, tree.blocks[k], store)
      {
        assert old(Stored(k, tree.blocks[k], store));
      }
    }

    /** Takes the block out of the map that its flags say it is in. */
    method TakeOff(hash: K, block: PrefixCacheBlock<K>)
      modifies this`gpuBlocks, this`swapBlocks, this`usedSize, this`swapUsed
      ensures gpuBlocks == Dropped(old(gpuBlocks), hash, block.inGPU)
      ensures swapBlocks == Dropped(old(swapBlocks), hash, block.inSwap)
      ensures usedSize == old(usedSize) - if block.inGPU then block.size else 0
      ensures swapUsed == old(swapUsed) - if block.inSwap then block.size else 0
    {
      if block.inGPU {
        gpuBlocks := gpuBlocks - {hash};
        usedSize := usedSize - block.size;
      }
      if block.inSwap {
        swapBlocks := swapBlocks - {hash};
        swapUsed := swapUsed - block.size;
      }
    }

    // -------------------------------------------------------------- eviction

    method EvictExpired(now: int) returns (ghost order: seq<K>)
      requires StoreValid()
      modifies this`gpuBlocks, this`swapBlocks, this`usedSize, this`swapUsed, this`entries, this`store, tree`blocks
      ensures StoreValid() && Enumerates(old(store), order)
      ensures store == Sweep(old(store), now, order) && store.swap == old(store).swap
      ensures forall k :: k in store.gpu
                     <==> k in old(store).gpu && !(now > old(store).gpu[k].expiresAt && old(store).gpu[k].refs == 0)
    {
      order := [];
      var todo := gpuBlocks.Keys;
      while todo != {}
        invariant StoreValid() && todo <= gpuBlocks.Keys
        invariant store == Sweep(old(store), now, order)
        invariant Distinct(order) && forall k :: k in order ==> k in old(store).gpu && k !in todo
        invariant forall k :: k in old(store).gpu ==> k in todo || k in order
      {
        var hash :| hash in todo;
        var block := gpuBlocks[hash];
        SweepOneMore(old(store), now, order, hash);
        if now > block.expiresAt && block.refCount == 0 {
          RemoveBlock(hash, block);
        }
        todo := todo - {hash};
        DistinctAppend(order, hash);
        order := order + [hash];
      }
      SweepRemovesExpired(old(store), now, order);
    }

    /** The unpinned GPU blocks, in whatever order the map yields them. */
    method CollectUnpinned() returns (infos: seq<BlockInfo<K>>)
      requires StoreValid()
      ensures DistinctBy(infos, (x: BlockInfo<K>) => x.hash)
      ensures forall x :: x in infos ==>
                            && x.hash in store.gpu && store.gpu[x.hash].refs == 0
                            && x.block == tree.blocks[x.hash] && x.accessedAt == store.gpu[x.hash].accessedAt
      ensures forall k :: k in store.gpu && store.gpu[k].refs == 0 ==> k in Hashes(infos)
    {
      infos := [];
      var todo := gpuBlocks.Keys;
      while todo != {}
        invariant todo <= gpuBlocks.Keys
        invariant DistinctBy(infos, (x: BlockInfo<K>) => x.hash)
        invariant forall x :: x in infos ==>
                                && x.hash in store.gpu && store.gpu[x.hash].refs == 0 && x.hash !in todo
                                && x.block == tree.blocks[x.hash] && x.accessedAt == store.gpu[x.hash].accessedAt
        invariant forall k :: k in store.gpu && store.gpu[k].refs == 0 && k !in todo ==> k in Hashes(infos)
      {
        var hash :| hash in todo;
        var block := gpuBlocks[hash];
        if block.refCount == 0 {
          ghost var before := infos;
          infos := infos + [BlockInfo(hash, block, block.accessedAt)];
          assert Hashes(infos) == Hashes(before) + [hash];
        }
        todo := todo - {hash};
      }
    }

    /** The body of the evictor, without the lock that it takes around it. */
    method EvictLRU() returns (ghost order: seq<K>)
      requires StoreValid()
      modifies this`gpuBlocks, this`swapBlocks, this`usedSize, this`swapUsed, this`entries, this`store, tree`blocks
      modifies tree.blocks.Values`inGPU, tree.blocks.Values`inSwap
      ensures StoreValid() && Submap(tree.blocks, old(tree.blocks))
      ensures old(store).used > cfg.maxSize * 80 / 100 ==> LruOrder(old(store), order)
      ensures old(store).used <= cfg.maxSize * 80 / 100 ==> store == old(store)
      ensures store == EvictFrom(cfg, old(store), order)
    {
      order := [];
      if usedSize <= cfg.maxSize * 80 / 100 {
        return;
      }
      var found := CollectUnpinned();
      var infos := SortBy(found, (x: BlockInfo<K>) => x.accessedAt);
      SortedInfos(store, found, infos);
      order := Hashes(infos);
      assert forall i :: 0 <= i < |infos| ==> infos[i] in infos;
      EvictAlong(infos);
    }

    /** Takes one block off the GPU: to swap while swap has room, otherwise for good. */
    method EvictNext(hash: K, block: PrefixCacheBlock<K>)
      requires StoreValid() && hash in store.gpu && block == tree.blocks[hash]
      modifies this`gpuBlocks, this`swapBlocks, this`usedSize, this`swapUsed, this`entries, this`store, tree`blocks
      modifies block`inGPU, block`inSwap
      ensures StoreValid() && Submap(tree.blocks, old(tree.blocks))
      ensures store == EvictOne(cfg, old(store), hash)
      ensures hash in store.swap <==> cfg.enableSwap && old(store).swapUsed < cfg.swapSize
      ensures forall k :: k in old(store).gpu && k != hash ==> k in store.gpu && k in tree.blocks
    {
      if cfg.enableSwap && swapUsed < cfg.swapSize {
        MoveToSwap(hash, block);
      } else {
        RemoveBlock(hash, block);
      }
    }

    method EvictAlong(infos: seq<BlockInfo<K>>)
      requires StoreValid()
      requires Distinct(Hashes(infos))
      requires forall i :: 0 <= i < |infos| ==>
                             infos[i].hash in store.gpu && infos[i].block == tree.blocks[infos[i].hash]
      modifies this`gpuBlocks, this`swapBlocks, this`usedSize, this`swapUsed, this`entries, this`store, tree`blocks
      modifies tree.blocks.Values`inGPU, tree.blocks.Values`inSwap
      ensures StoreValid() && Submap(tree.blocks, old(tree.blocks))
      ensures store == EvictFrom(cfg, old(store), Hashes(infos))
    {
      ghost var order := Hashes(infos);
      ghost var goal := EvictFrom(cfg, store, order);
      assert order[0..] == order;
      var i := 0;
      while i < |infos| && usedSize > cfg.maxSize * 80 / 100
        invariant i <= |infos|
        invariant StoreValid() && Submap(tree.blocks, old(tree.blocks))
        invariant EvictFrom(cfg, store, order[i..]) == goal
        invariant forall j :: i <= j < |infos| ==>
                                infos[j].hash in store.gpu && infos[j].block == tree.blocks[infos[j].hash]
      {
        EvictFromStep(cfg, store, order, i);
        forall j | i < j < |infos|
          ensures infos[j].hash != infos[i].hash
        {
          assert !Repeats(order, i, j);
        }
        EvictNext(infos[i].hash, infos[i].block);
        i := i + 1;
      }
    }

    // -------------------------------------------------------------- the interface

    /** Brings a block back from swap. `relocks` says that the source calls the evictor for it, and so
        asks for the lock that its caller `Get` is holding. */
    method MoveToGPU(hash: K, block: PrefixCacheBlock<K>) returns (relocks: bool, ghost order: seq<K>)
      requires StoreValid() && hash in store.swap && block == tree.blocks[hash]
      modifies this`gpuBlocks, this`swapBlocks, this`usedSize, this`swapUsed, this`entries, this`store, tree`blocks
      modifies tree.blocks.Values`inGPU, tree.blocks.Values`inSwap
      ensures StoreValid() && Submap(tree.blocks, old(tree.blocks))
      ensures relocks == (old(store).used + |old(store).swap[hash].kv| > cfg.maxSize)
      ensures relocks && old(store).used > Target(cfg) ==> LruOrder(old(store), order)
      ensures store == Promote(cfg, old(store), hash, order) && hash in store.gpu
    {
      relocks, order := MakeRoom(hash, block);
      Unswap(hash, block);
    }

    /** Evicts if the block in swap does not fit on the GPU. */
    method MakeRoom(hash: K, block: PrefixCacheBlock<K>) returns (evicts: bool, ghost order: seq<K>)
      requires StoreValid() && hash in store.swap && block == tree.blocks[hash]
      modifies this`gpuBlocks, this`swapBlocks, this`usedSize, this`swapUsed, this`entries, this`store, tree`blocks
      modifies tree.blocks.Values`inGPU, tree.blocks.Values`inSwap
      ensures StoreValid() && Submap(tree.blocks, old(tree.blocks))
      ensures evicts == (old(store).used + |old(store).swap[hash].kv| > cfg.maxSize)
      ensures evicts && old(store).used > cfg.maxSize * 80 / 100 ==> LruOrder(old(store), order)
      ensures store == (if evicts then EvictFrom(cfg, old(store), order) else old(store)) && hash in store.swap
    {
      order := [];
      assert Stored(hash, block, store);
      evicts := usedSize + block.size > cfg.maxSize;
      if evicts {
        order := EvictLRU();
        EvictionKeepsSwap(cfg, old(store), order, hash);
      }
    }

    method Unswap(hash: K, block: PrefixCacheBlock<K>)
      requires StoreValid() && hash in store.swap && block == tree.blocks[hash]
      modifies this`gpuBlocks, this`swapBlocks, this`usedSize, this`swapUsed, this`store, block`inGPU, block`inSwap
      ensures StoreValid() && store == Unswapped(old(store), hash)
    {
      UnswapKeepsMatch(tree.blocks, gpuBlocks, swapBlocks, store, hash, block);
      assert Stored(hash, block, store);
      block.SetPlace(true, false);
      FileOnGPU(hash, block);
      store := Unswapped(store, hash);
      forall k | k in tree.blocks
        ensures Stored(k, tree.blocks[k], store)
      {
        assert k != hash ==> old(Stored(k, tree.blocks[k], store));
      }
    }

    method FileOnGPU(hash: K, block: PrefixCacheBlock<K>)
      modifies this`gpuBlocks, this`swapBlocks, this`usedSize, this`swapUsed
      ensures swapBlocks == old(swapBlocks) - {hash} && gpuBlocks == old(gpuBlocks)[hash := block]
      ensures swapUsed == old(swapUsed) - block.size && usedSize == old(usedSize) + block.size
    {
      swapBlocks := swapBlocks - {hash};
      gpuBlocks := gpuBlocks[hash := block];
      swapUsed := swapUsed - block.size;
      usedSize := usedSize + block.size;
    }

    /** Stamps a block as just used. */
    method Touch(hash: K, block: PrefixCacheBlock<K>, now: int)
      requires StoreValid() && hash in tree.blocks && block == tree.blocks[hash]
      modifies this`store, block`accessedAt
      ensures StoreValid()
      ensures store
           == old(store).(gpu := Touched(old(store).gpu, hash, now), swap := Touched(old(store).swap, hash, now))
      ensures block.accessedAt == now
    {
      block.accessedAt := now;
      store := store.(gpu := Touched(store.gpu, hash, now), swap := Touched(store.swap, hash, now));
      forall k | k in tree.blocks
        ensures Stored(k, tree.blocks[k], store)
      {
        if k != hash {
          assert tree.blocks[k] != block;
        }
      }
    }

    method Get(key: K, now: int) returns (entry: Option<CacheEntry>, relocks: bool, ghost order: seq<K>)
      requires StoreValid()
      modifies this`gpuBlocks, this`swapBlocks, this`usedSize, this`swapUsed, this`entries, this`store, tree`blocks
      modifies this`hits, this`misses
      modifies tree.blocks.Values`inGPU, tree.blocks.Values`inSwap, tree.blocks.Values`accessedAt
      ensures StoreValid() && store == Read(cfg, old(store), key, now, order)
      ensures entry.Some? <==> Lookup(old(store), key, now).Some?
      ensures entry.Some? ==>
                exists b {:trigger Has(old(store), key, b)} ::
                  && Has(old(store), key, b) && now <= b.expiresAt
                  && entry.value == CacheEntry(b.kv, |b.kv|, b.createdAt, now)
                  && key in store.gpu && store.gpu[key] == b.(accessedAt := now) && key !in store.swap
      ensures entry.None? ==> key !in store.gpu && key !in store.swap
      ensures relocks <==> && key in old(store).swap && now <= old(store).swap[key].expiresAt
                           && old(store).used + |old(store).swap[key].kv| > cfg.maxSize
      ensures relocks && old(store).used > cfg.maxSize * 80 / 100 ==> LruOrder(old(store), order)
      ensures hits == old(hits) + (if entry.Some? then 1 else 0)
      ensures misses == old(misses) + (if entry.Some? then 0 else 1)
    {
      entry, relocks, order := Fetch(key, now);
      if entry.Some? {
        hits := hits + 1;
      } else {
        misses := misses + 1;
      }
    }

    /** The read without its count. */
    method Fetch(key: K, now: int) returns (entry: Option<CacheEntry>, relocks: bool, ghost order: seq<K>)
      requires StoreValid()
      modifies this`gpuBlocks, this`swapBlocks, this`usedSize, this`swapUsed, this`entries, this`store, tree`blocks
      modifies tree.blocks.Values`inGPU, tree.blocks.Values`inSwap, tree.blocks.Values`accessedAt
      ensures StoreValid() && store == Read(cfg, old(store), key, now, order)
      ensures entry.Some? <==> Lookup(old(store), key, now).Some?
      ensures entry.Some? ==>
                exists b {:trigger Has(old(store), key, b)} ::
                  && Has(old(store), key, b) && now <= b.expiresAt
                  && entry.value == CacheEntry(b.kv, |b.kv|, b.createdAt, now)
                  && key in store.gpu && store.gpu[key] == b.(accessedAt := now) && key !in store.swap
      ensures entry.None? ==> key !in store.gpu && key !in store.swap
      ensures relocks == NeedsRoom(cfg, old(store), key, now)
      ensures relocks && old(store).used > Target(cfg) ==> LruOrder(old(store), order)
    {
      entry, relocks, order := None, false, [];
      if key !in gpuBlocks && key !in swapBlocks {
        return;
      }
      var block := if key in gpuBlocks then gpuBlocks[key] else swapBlocks[key];
      assert Stored(key, block, store);
      if now > block.expiresAt {
        RemoveBlock(key, block);
        return;
      }
      var found;
      found, relocks, order := Serve(key, block, now);
      entry := Some(found);
    }

    /** Stamps a block that has not expired, and brings it back from swap if it is there. The source holds a
        reference on the block meanwhile: see `ReferenceLeavesNoTrace`. */
    method Serve(key: K, block: PrefixCacheBlock<K>, now: int)
      returns (entry: CacheEntry, relocks: bool, ghost order: seq<K>)
      requires StoreValid() && key in tree.blocks && block == tree.blocks[key] && now <= block.expiresAt
      modifies this`gpuBlocks, this`swapBlocks, this`usedSize, this`swapUsed, this`entries, this`store, tree`blocks
      modifies tree.blocks.Values`inGPU, tree.blocks.Values`inSwap, tree.blocks.Values`accessedAt
      ensures StoreValid() && store == Read(cfg, old(store), key, now, order)
      ensures entry == CacheEntry(block.kvCache, |block.kvCache|, block.createdAt, now)
      ensures Has(old(store), key, old(block.View())) && key !in store.swap
      ensures key in store.gpu && store.gpu[key] == old(block.View()).(accessedAt := now)
      ensures relocks == NeedsRoom(cfg, old(store), key, now)
      ensures relocks && old(store).used > Target(cfg) ==> LruOrder(old(store), order)
    {
      relocks, order := false, [];
      assert Stored(key, block, store);
      ghost var b := block.View();
      Touch(key, block, now);
      if block.inSwap {
        relocks, order := MoveToGPU(key, block);
      }
      entry := CacheEntry(block.kvCache, block.size, block.createdAt, block.accessedAt);
      ReadStamps(cfg, old(store), key, now, order, b);
    }

    /** Files a new block under a key that is free. */
    method Add(key: K, block: PrefixCacheBlock<K>)
      requires StoreValid() && key !in tree.blocks
      requires Stored(key, block, AddNew(store, key, block.View()))
      modifies this`gpuBlocks, this`usedSize, this`entries, this`store, tree`blocks
      ensures StoreValid() && store == AddNew(old(store), key, block.View())
      ensures tree.blocks == old(tree.blocks)[key := block]
    {
      AddKeepsMatch(tree.blocks, gpuBlocks, swapBlocks, store, key, block, block.View());
      ghost var was := tree.blocks;
      gpuBlocks := gpuBlocks[key := block];
      tree.blocks := tree.blocks[key := block];
      usedSize := usedSize + block.size;
      entries := entries + 1;
      store := AddNew(store, key, block.View());
      forall k | k in tree.blocks
        ensures Stored(k, tree.blocks[k], store)
      {
        if k != key {
          assert tree.blocks[k] == was[k];
        }
      }
    }

    /** Removes the block under `key`, from the GPU or else from swap. */
    method Delete(key: K)
      requires StoreValid()
      modifies this`gpuBlocks, this`swapBlocks, this`usedSize, this`swapUsed, this`entries, this`store, tree`blocks
      ensures StoreValid() && store == RemoveIfPresent(old(store), key)
      ensures store.gpu == old(store).gpu - {key} && store.swap == old(store).swap - {key}
    {
      if key in gpuBlocks {
        RemoveBlock(key, gpuBlocks[key]);
      } else if key in swapBlocks {
        RemoveBlock(key, swapBlocks[key]);
      }
    }

    method Set(key: K, value: seq<byte>, ttl: int, now: int)
      requires StoreValid()
      modifies this`gpuBlocks, this`swapBlocks, this`usedSize, this`swapUsed, this`entries, this`store, tree`blocks
      modifies this`evictionsAsked
      ensures StoreValid() && store == Put(cfg, old(store), key, value, ttl, now)
      ensures key in tree.blocks && fresh(tree.blocks[key]) && tree.blocks[key].kvCache == value
      ensures var end := now + if ttl == 0 then cfg.defaultTTL else ttl;
              store.gpu == old(store).gpu[key := Block(value, now, now, end, 0)]
      ensures store.swap == old(store).swap - {key}
      ensures var had := if key in old(store).gpu then |old(store).gpu[key].kv| else 0;
              evictionsAsked == old(evictionsAsked)
                + if old(store).used - had + |value| > cfg.maxSize then 1 else 0
    {
      PutReplaces(cfg, store, key, value, ttl, now);
      Delete(key);
      Admit(key, value, ttl, now);
    }

    /** Stores a new block under a free key, and asks for an eviction if it does not fit. */
    method Admit(key: K, value: seq<byte>, ttl: int, now: int)
      requires StoreValid() && key !in store.gpu && key !in store.swap
      modifies this`gpuBlocks, this`usedSize, this`entries, this`store, tree`blocks, this`evictionsAsked
      ensures StoreValid() && store == AddNew(old(store), key, NewBlock(cfg, value, ttl, now))
      ensures key in tree.blocks && fresh(tree.blocks[key]) && tree.blocks[key].kvCache == value
      ensures evictionsAsked == old(evictionsAsked) + if Overfills(cfg, old(store), |value|) then 1 else 0
    {
      var block := new PrefixCacheBlock(key, value, now, if ttl == 0 then cfg.defaultTTL else ttl);
      if usedSize + block.size > cfg.maxSize {
        evictionsAsked := evictionsAsked + 1;
      }
      Add(key, block);
    }

    method Clear()
      requires Valid()
      modifies this`gpuBlocks, this`swapBlocks, this`usedSize, this`swapUsed, this`entries, this`store, tree, tree.root
      ensures Valid() && store == EmptyStore() && tree.log == []
    {
      gpuBlocks, swapBlocks := map[], map[];
      tree.Clear();
      usedSize, swapUsed, entries := 0, 0, 0;
      store := EmptyStore();
    }

    // -------------------------------------------------------------- prefixes

    /** The longest match in the tree, and its blocks, the shortest prefix first. */
    method MatchPrefix(tokens: seq<int32>)
      returns (matchedLen: nat, blocks: seq<PrefixCacheBlock<K>>, ghost depths: seq<nat>)
      requires Valid()
      ensures LongestMatch(tree.log, tokens, maxPrefixLen, matchedLen)
      ensures blocks == LinkedAlong(tree.log, tokens, matchedLen)
      ensures BlocksAlong(tree.log, tokens, matchedLen, depths, blocks)
    {
      matchedLen, blocks, depths := tree.Match(tokens, maxPrefixLen);
    }

    method HashTokens(tokens: seq<int32>) returns (key: K)
      ensures key == digest(TokenEncoding.Encode(tokens))
    {
      var data := TokenEncoding.EncodeTokens(tokens);
      key := digest(data[..]);
    }

    /** Stores one block under the digest of the prefix it ends, and links it in the tree under its own
        tokens. */
    method InsertBlock(prefix: seq<int32>, blockTokens: seq<int32>, blockKV: seq<byte>, ttl: int, now: int)
      returns (ghost block: PrefixCacheBlock<K>)
      requires Valid() && |blockTokens| <= blockSize
      modifies this`gpuBlocks, this`swapBlocks, this`usedSize, this`swapUsed, this`entries, this`store,
               this`evictionsAsked
      modifies tree`blocks, tree`nodes, tree`log, tree.nodes.Values
      ensures Valid() && fresh(tree.nodes.Values - old(tree.nodes.Values))
      ensures fresh(block) && block.kvCache == blockKV
      ensures var key := digest(TokenEncoding.Encode(prefix));
              && store == Put(cfg, old(store), key, blockKV, ttl, now)
              && evictionsAsked == old(evictionsAsked) + AskedFor(cfg, old(store), key, |blockKV|)
      ensures tree.log == old(tree.log) + [Insertion(blockTokens, Some(block))]
    {
      var blockHash;
      blockHash, block := StoreBlock(prefix, blockKV, ttl, now);
      LinkBlock(blockTokens, blockHash);
    }

    method StoreBlock(prefix: seq<int32>, blockKV: seq<byte>, ttl: int, now: int)
      returns (blockHash: K, ghost block: PrefixCacheBlock<K>)
      requires Valid()
      modifies this`gpuBlocks, this`swapBlocks, this`usedSize, this`swapUsed, this`entries, this`store,
               this`evictionsAsked
      modifies tree`blocks
      ensures Valid() && fresh(block) && block.kvCache == blockKV
      ensures blockHash in tree.blocks && tree.blocks[blockHash] == block
      ensures var key := digest(TokenEncoding.Encode(prefix));
              && store == Put(cfg, old(store), key, blockKV, ttl, now)
              && evictionsAsked == old(evictionsAsked) + AskedFor(cfg, old(store), key, |blockKV|)
    {
      blockHash := HashTokens(prefix);
      Set(blockHash, blockKV, ttl, now);
      block := tree.blocks[blockHash];
    }

    method LinkBlock(blockTokens: seq<int32>, blockHash: K)
      requires Valid() && |blockTokens| <= blockSize && blockHash in tree.blocks
      modifies tree`nodes, tree`log, tree.nodes.Values
      ensures Valid() && fresh(tree.nodes.Values - old(tree.nodes.Values))
      ensures tree.log == old(tree.log) + [Insertion(blockTokens, Some(tree.blocks[blockHash]))]
    {
      tree.Insert(blockTokens, blockHash);
    }

    /** Inserts a prefix, cut to the maximal length; one that is too short is refused. `blocks` names the
        new blocks, in order. */
    method InsertPrefix(tokens: seq<int32>, kvCache: seq<byte>, ttl: int, now: int)
      returns (ok: bool, ghost p: Prefix, ghost blocks: seq<PrefixCacheBlock<K>>)
      requires Valid()
      modifies this`gpuBlocks, this`swapBlocks, this`usedSize, this`swapUsed, this`entries, this`store,
               this`evictionsAsked
      modifies tree`blocks, tree`nodes, tree`log, tree.nodes.Values
      ensures Valid()
      ensures ok <==> |tokens| >= minPrefixLen
      ensures !ok ==> store == old(store) && tree.log == old(tree.log) && evictionsAsked == old(evictionsAsked)
      ensures ok ==> p == Prefix(tokens[..Min(|tokens|, maxPrefixLen)], kvCache, blockSize) && p.Valid()
      ensures ok ==> |blocks| == p.Count() && fresh(set b | b in blocks)
      ensures ok ==> Inserted(p, cfg, digest, ttl, now, old(store), store, old(tree.log), tree.log, blocks,
                              evictionsAsked - old(evictionsAsked))
      ensures ok ==> forall k :: LongestMatch(tree.log, tokens, maxPrefixLen, k) ==> k == Min(blockSize, |p.tokens|)
    {
      p, blocks := Prefix([], [], 0), [];
      if |tokens| < minPrefixLen {
        return false, p, blocks;
      }
      ok := true;
      var kept := if |tokens| > maxPrefixLen then tokens[..maxPrefixLen] else tokens;
      assert kept == tokens[..Min(|tokens|, maxPrefixLen)];
      p := Prefix(kept, kvCache, blockSize);
      blocks := InsertBlocks(p, kept, kvCache, ttl, now);
      InsertedMatch(p, tokens, maxPrefixLen, old(tree.log), tree.log, blocks);
    }

    /** The loop over the blocks of `kept`. */
    method InsertBlocks(ghost p: Prefix, kept: seq<int32>, kvCache: seq<byte>, ttl: int, now: int)
      returns (ghost blocks: seq<PrefixCacheBlock<K>>)
      requires Valid() && kept != [] && p == Prefix(kept, kvCache, blockSize)
      modifies this`gpuBlocks, this`swapBlocks, this`usedSize, this`swapUsed, this`entries, this`store,
               this`evictionsAsked
      modifies tree`blocks, tree`nodes, tree`log, tree.nodes.Values
      ensures Valid() && fresh(set b | b in blocks)
      ensures |blocks| == p.Count()
      ensures Inserted(p, cfg, digest, ttl, now, old(store), store, old(tree.log), tree.log, blocks,
                       evictionsAsked - old(evictionsAsked))
    {
      var numBlocks := (|kept| + blockSize - 1) / blockSize;
      assert numBlocks == p.Count();
      var blockStart := 0;
      blocks := [];
      var i := 0;
      while i < numBlocks
        invariant i <= numBlocks == p.Count() && |blocks| == i && blockStart == p.TokenCuts()[i]
        invariant Valid() && fresh(tree.nodes.Values - old(tree.nodes.Values))
        invariant fresh(set b | b in blocks)
        invariant Inserted(p, cfg, digest, ttl, now, old(store), store, old(tree.log), tree.log, blocks,
                           evictionsAsked - old(evictionsAsked))
      {
        blockStart, blocks := InsertMore(p, kept, kvCache, blockStart, ttl, now, old(store), old(tree.log),
                                         old(evictionsAsked), blocks);
        i := i + 1;
      }
    }

    /** One turn of the loop, which began with store `s`, log `log` and `asked` evictions asked for. */
    method InsertMore(ghost p: Prefix, kept: seq<int32>, kvCache: seq<byte>, blockStart: nat, ttl: int, now: int,
                      ghost s: Store<K>, ghost log: seq<Insertion<PrefixCacheBlock<K>>>, ghost asked: nat,
                      ghost blocks: seq<PrefixCacheBlock<K>>)
      returns (blockEnd: nat, ghost blocks': seq<PrefixCacheBlock<K>>)
      requires Valid() && kept != [] && p == Prefix(kept, kvCache, blockSize)
      requires |blocks| < p.Count() && blockStart == p.TokenCuts()[|blocks|]
      requires Inserted(p, cfg, digest, ttl, now, s, store, log, tree.log, blocks, evictionsAsked - asked)
      modifies this`gpuBlocks, this`swapBlocks, this`usedSize, this`swapUsed, this`entries, this`store,
               this`evictionsAsked
      modifies tree`blocks, tree`nodes, tree`log, tree.nodes.Values
      ensures Valid() && fresh(tree.nodes.Values - old(tree.nodes.Values))
      ensures |blocks'| == |blocks| + 1 && blocks' == blocks + [blocks'[|blocks|]] && fresh(blocks'[|blocks|])
      ensures blockEnd == p.TokenCuts()[|blocks'|]
      ensures Inserted(p, cfg, digest, ttl, now, s, store, log, tree.log, blocks', evictionsAsked - asked)
    {
      ghost var before, logBefore, askedBefore := store, tree.log, evictionsAsked - asked;
      ghost var block;
      blockEnd, block := InsertNth(p, |blocks|, kept, kvCache, blockStart, ttl, now);
      InsertedStep(p, cfg, digest, ttl, now, s, before, store, log, logBefore, tree.log, blocks, block, askedBefore);
      blocks' := blocks + [block];
    }

    /** Cuts off and inserts the block that starts at `blockStart`. */
    method InsertNth(ghost p: Prefix, ghost i: nat, kept: seq<int32>, kvCache: seq<byte>, blockStart: nat, ttl: int,
                     now: int)
      returns (blockEnd: nat, ghost block: PrefixCacheBlock<K>)
      requires Valid() && kept != [] && p == Prefix(kept, kvCache, blockSize)
      requires i < p.Count() && blockStart == p.TokenCuts()[i]
      modifies this`gpuBlocks, this`swapBlocks, this`usedSize, this`swapUsed, this`entries, this`store,
               this`evictionsAsked
      modifies tree`blocks, tree`nodes, tree`log, tree.nodes.Values
      ensures Valid() && fresh(tree.nodes.Values - old(tree.nodes.Values))
      ensures blockEnd == p.TokenCuts()[i + 1]
      ensures fresh(block) && block.kvCache == p.KvSlices()[i]
      ensures store == Put(cfg, old(store), p.Keys(digest)[i], p.KvSlices()[i], ttl, now)
      ensures evictionsAsked == old(evictionsAsked)
                + AskedFor(cfg, old(store), p.Keys(digest)[i], |p.KvSlices()[i]|)
      ensures tree.log == old(tree.log) + [Insertion(p.TokenBlocks()[i], Some(block))]
    {
      BlockAt(p, digest, i);
      blockEnd := if blockStart + blockSize > |kept| then |kept| else blockStart + blockSize;
      var kvStart := blockStart * |kvCache| / |kept|;
      var kvEnd := blockEnd * |kvCache| / |kept|;
      block := InsertBlock(kept[..blockEnd], kept[blockStart..blockEnd], kvCache[kvStart..kvEnd], ttl, now);
    }
  }

  /** The first `|blocks|` blocks of `p` are stored, each under its key, and linked in the tree, each
      under its own tokens; `blocks` names the objects, all different, that hold the slices. Each of them that
      did not fit has asked for an eviction. */
  ghost predicate Inserted<K>(p: Prefix, cfg: Config, digest: seq<byte> -> K, ttl: int, now: int, s: Store<K>,
                              s': Store<K>, log: seq<Insertion<PrefixCacheBlock<K>>>,
                              log': seq<Insertion<PrefixCacheBlock<K>>>,
                              blocks: seq<PrefixCacheBlock<K>>, asked: int)
    requires p.Valid()
  {
    var n := |blocks|;
    && n <= p.Count()
    && StoredFirst(cfg, s, p.Keys(digest), p.KvSlices(), ttl, now, n, s', asked)
    && log' == log + BlockLog(p.TokenBlocks()[..n], Links(blocks))
    && (forall j :: 0 <= j < n ==> blocks[j].kvCache == p.KvSlices()[j])
    && forall i, j :: 0 <= i < j < n ==> blocks[i] != blocks[j]
  }

  lemma InsertedStep<K>(p: Prefix, cfg: Config, digest: seq<byte> -> K, ttl: int, now: int,
                        s: Store<K>, s1: Store<K>, s2: Store<K>,
                        log: seq<Insertion<PrefixCacheBlock<K>>>, log1: seq<Insertion<PrefixCacheBlock<K>>>,
                        log2: seq<Insertion<PrefixCacheBlock<K>>>, blocks: seq<PrefixCacheBlock<K>>,
                        block: PrefixCacheBlock<K>, asked: int)
    requires p.Valid() && Inserted(p, cfg, digest, ttl, now, s, s1, log, log1, blocks, asked)
    requires |blocks| < p.Count() && block !in blocks && block.kvCache == p.KvSlices()[|blocks|]
    requires s2 == Put(cfg, s1, p.Keys(digest)[|blocks|], p.KvSlices()[|blocks|], ttl, now)
    requires log2 == log1 + [Insertion(p.TokenBlocks()[|blocks|], Some(block))]
    ensures Inserted(p, cfg, digest, ttl, now, s, s2, log, log2, blocks + [block],
                     asked + AskedFor(cfg, s1, p.Keys(digest)[|blocks|], |p.KvSlices()[|blocks|]|))
  {
    OneMoreStored(cfg, s, p.Keys(digest), p.KvSlices(), ttl, now, |blocks|, s1, asked);
    BlockLogStep(p.TokenBlocks(), blocks, block);
  }

  ghost function Links<B>(blocks: seq<B>): seq<Option<B>> {
    seq(|blocks|, i requires 0 <= i < |blocks| => Some(blocks[i]))
  }

  lemma BlockLogStep<B>(parts: seq<seq<int32>>, blocks: seq<B>, block: B)
    requires |blocks| < |parts|
    ensures BlockLog(parts[..|blocks| + 1], Links(blocks + [block]))
         == BlockLog(parts[..|blocks|], Links(blocks)) + [Insertion(parts[|blocks|], Some(block))]
  {
  }

  lemma InsertedMatch<B>(p: Prefix, tokens: seq<int32>, max: nat, log: seq<Insertion<B>>, log': seq<Insertion<B>>,
                         blocks: seq<B>)
    requires p.Valid() && p.tokens == tokens[..Min(|tokens|, max)] && |blocks| == p.Count() && Within(log, p.blockSize)
    requires log' == log + BlockLog(p.TokenBlocks()[..|blocks|], Links(blocks))
    ensures forall k :: LongestMatch(log', tokens, max, k) ==> k == Min(p.blockSize, |p.tokens|)
  {
    assert p.TokenBlocks()[..|blocks|] == p.TokenBlocks();
    forall k | LongestMatch(log', tokens, max, k)
      ensures k == Min(p.blockSize, |p.tokens|)
    {
      MatchAfterInsert(log, tokens, p, Links(blocks), max, k);
    }
  }

  /** The bounds that the loop computes are the cut points of the prefix. */
  lemma BlockAt<K>(p: Prefix, digest: seq<byte> -> K, i: nat)
    requires p.Valid() && i < p.Count()
    ensures var start, end, n := p.TokenCuts()[i], p.TokenCuts()[i + 1], |p.tokens|;
            && end == (if start + p.blockSize > n then n else start + p.blockSize)
            && start <= end <= n
            && p.KvCuts()[i] == start * |p.kv| / n && p.KvCuts()[i + 1] == end * |p.kv| / n
            && p.TokenBlocks()[i] == p.tokens[start..end]
            && p.Keys(digest)[i] == digest(TokenEncoding.Encode(p.tokens[..end]))
    ensures 0 <= p.KvCuts()[i] <= p.KvCuts()[i + 1] <= |p.kv|
    ensures p.KvSlices()[i] == p.kv[p.KvCuts()[i]..p.KvCuts()[i + 1]]
  {
    BoundaryStep(i, |p.tokens|, p.blockSize);
    BoundaryMonotone(i, i + 1, |p.tokens|, p.blockSize);
    KvBoundaryMonotone(i, i + 1, |p.tokens|, p.blockSize, |p.kv|);
    assert p.TokenCuts()[i] == Boundary(i, |p.tokens|, p.blockSize);
    assert p.KvCuts()[i] == KvBoundary(i, |p.tokens|, p.blockSize, |p.kv|);
  }

  lemma SortedInfos<K>(s: Store<K>, found: seq<BlockInfo<K>>, infos: seq<BlockInfo<K>>)
    requires DistinctBy(found, (x: BlockInfo<K>) => x.hash)
    requires forall x :: x in found ==>
               x.hash in s.gpu && s.gpu[x.hash].refs == 0 && x.accessedAt == s.gpu[x.hash].accessedAt
    requires forall k :: k in s.gpu && s.gpu[k].refs == 0 ==> k in Hashes(found)
    requires multiset(infos) == multiset(found) && SortedBy(infos, (x: BlockInfo<K>) => x.accessedAt)
    ensures LruOrder(s, Hashes(infos))
    ensures forall x :: x in infos ==> x in found
  {
    SameElements(found, infos);
    PermutationStaysDistinct(found, infos, (x: BlockInfo<K>) => x.hash);
    forall k | k in s.gpu && s.gpu[k].refs == 0
      ensures k in Hashes(infos)
    {
      var i :| 0 <= i < |found| && Hashes(found)[i] == k;
      assert found[i] in infos;
      var j :| 0 <= j < |infos| && infos[j] == found[i];
      assert Hashes(infos)[j] == k;
    }
    forall i, j | 0 <= i < j < |infos|
      ensures s.gpu[infos[i].hash].accessedAt <= s.gpu[infos[j].hash].accessedAt
    {
      assert infos[i] in found && infos[j] in found;
    }
  }
}
