/** The disk cache as its own objects. The disk is a map from keys to the bytes of their files. */
module LocalCaches {
  import opened Common
  import opened Iterations
  import opened LocalCacheSpec
  import opened LocalEviction

  class LocalCacheEntry<K> {
    const key: K
    const createdAt: int
    const expiresAt: int
    const size: nat
    const compressed: bool
    var accessedAt: int

    constructor (key: K, now: int, ttl: int, size: nat, compressed: bool)
      ensures this.key == key && View() == Entry(size, compressed, now, now, now + ttl)
    {
      this.key, this.size, this.compressed := key, size, compressed;
      createdAt, accessedAt, expiresAt := now, now, now + ttl;
    }

    ghost function View(): Entry
      reads this`accessedAt
    {
      Entry(size, compressed, createdAt, accessedAt, expiresAt)
    }
  }

  class LocalCache<K(==)> {
    const cfg: Config
    /** The empty key, which the search for the oldest entry takes to mean that it found none. */
    const noKey: K
    var index: map<K, LocalCacheEntry<K>>
    var files: map<K, seq<byte>>
    var usedSize: int
    var entries: int
    var evictions: nat
    var hits: nat
    var misses: nat
    /** The one-place buffer of the channel that wakes the evictor. */
    var evictSignal: bool
    ghost var cache: Cache<K>

    ghost predicate Matches(k: K, e: LocalCacheEntry<K>, v: Entry)
      reads e
    {
      e.key == k && e.View() == v
    }

    ghost predicate Valid()
      reads this, index.Values
    {
      && (forall k :: k in index ==> k in cache.index && Matches(k, index[k], cache.index[k]))
      && (forall k :: k in cache.index ==> k in index)
      && files == cache.files && usedSize == cache.used && entries == cache.entries
    }

    constructor (cfg: Config, noKey: K)
      ensures Valid() && cache == EmptyCache() && this.cfg == cfg && this.noKey == noKey && !evictSignal
    {
      this.cfg, this.noKey := cfg, noKey;
      index, files, usedSize, entries := map[], map[], 0, 0;
      evictions, hits, misses, evictSignal := 0, 0, 0, false;
      cache := EmptyCache();
    }

    method RemoveEntry(key: K, entry: LocalCacheEntry<K>)
      requires Valid() && key in index && entry == index[key]
      modifies this`index, this`files, this`usedSize, this`entries, this`cache
      ensures Valid() && cache == DeleteEntry(old(cache), key)
      ensures index == old(index) - {key}
    {
      files := files - {key};
      usedSize := usedSize - entry.size;
      entries := entries - 1;
      index := index - {key};
      cache := DeleteEntry(cache, key);
    }

    method CleanupExpired(now: int) returns (ghost order: seq<K>)
      requires Valid()
      modifies this`index, this`files, this`usedSize, this`entries, this`cache
      ensures Valid() && Lists(order, old(cache).index)
      ensures cache == Sweep(old(cache), now, order)
      ensures forall k :: if k in old(cache).index && now > old(cache).index[k].expiresAt then GoneAt(cache, k)
                          else SameAt(old(cache), cache, k)
    {
      order := [];
      var todo := index.Keys;
      while todo != {}
        invariant Valid() && todo <= index.Keys
        invariant cache == Sweep(old(cache), now, order)
        invariant Distinct(order) && forall k :: k in order ==> k in old(cache).index && k !in todo
        invariant forall k :: k in old(cache).index ==> k in todo || k in order
      {
        var key :| key in todo;
        var entry := index[key];
        SweepOneMore(old(cache), now, order, key);
        if now > entry.expiresAt {
          RemoveEntry(key, entry);
        }
        todo := todo - {key};
        DistinctAppend(order, key);
        order := order + [key];
      }
      forall k
        ensures if k in old(cache).index && now > old(cache).index[k].expiresAt then GoneAt(cache, k)
                else SameAt(old(cache), cache, k)
      {
        SweepRemovesExpired(old(cache), now, order, k);
      }
    }

    /** The search through the index for the entry that is least recently used. */
    method FindOldest() returns (oldestKey: K, ghost order: seq<K>)
      requires Valid()
      ensures Lists(order, cache.index) && oldestKey == Scan(noKey, cache.index, order)
    {
      oldestKey, order := noKey, [];
      var oldestTime := 0;
      var todo := index.Keys;
      while todo != {}
        invariant todo <= index.Keys
        invariant Distinct(order) && forall k :: k in order ==> k in cache.index && k !in todo
        invariant forall k :: k in cache.index ==> k in todo || k in order
        invariant oldestKey == Scan(noKey, cache.index, order)
        invariant oldestKey != noKey ==> oldestKey in cache.index && oldestTime == cache.index[oldestKey].accessedAt
      {
        var key :| key in todo;
        var entry := index[key];
        assert (order + [key])[..|order|] == order;
        if oldestKey == noKey || entry.accessedAt < oldestTime {
          oldestKey, oldestTime := key, entry.accessedAt;
        }
        DistinctAppend(order, key);
        order := order + [key];
        todo := todo - {key};
      }
    }

    /** Removes what the search finds until the target is met. It ends under every order of the map exactly
        when it is called like this: see `MaySpinIff`. Without an entry under the empty key the victims are
        least recently used. */
    method Evict() returns (ghost orders: seq<seq<K>>, ghost victims: seq<K>)
      requires Valid() && !MaySpin(noKey, cfg, cache)
      modifies this`index, this`files, this`usedSize, this`entries, this`cache, this`evictions
      ensures Valid() && Loops(noKey, cfg, old(cache), orders)
      ensures cache == After(noKey, old(cache), orders) && !Running(cfg, cache)
      ensures cache == DeleteAll(old(cache), victims)
      ensures evictions == old(evictions) + |orders| && |victims| == |orders|
      ensures noKey !in old(cache).index ==> EvictionOf(cfg, old(cache), victims)
    {
      orders, victims := [], [];
      while usedSize > cfg.maxSize * 80 / 100 && |index| > 0
        invariant Valid() && OnItsWay(noKey, cfg, old(cache), cache)
        invariant Loops(noKey, cfg, old(cache), orders) && cache == After(noKey, old(cache), orders)
        invariant cache == DeleteAll(old(cache), victims)
        invariant noKey !in old(cache).index ==> EvictionSoFar(cfg, old(cache), victims, cache)
        invariant evictions == old(evictions) + |orders| && |victims| == |orders|
        decreases |index|
      {
        ghost var before := cache;
        var oldestKey;
        ghost var order;
        oldestKey, order := EvictNext(old(cache));
        if noKey !in old(cache).index {
          EvictionAfter(cfg, old(cache), victims, oldestKey, before);
        }
        DeleteAllMore(old(cache), victims, oldestKey);
        OneMoreChoice(Step(noKey), May(cfg), old(cache), orders, order);
        orders, victims := orders + [order], victims + [oldestKey];
      }
      if noKey !in old(cache).index {
        EvictionEnds(cfg, old(cache), victims, cache);
      }
    }

    /** One round of the eviction of `start`. */
    method EvictNext(ghost start: Cache<K>) returns (oldestKey: K, ghost order: seq<K>)
      requires Valid() && OnItsWay(noKey, cfg, start, cache) && Running(cfg, cache)
      modifies this`index, this`files, this`usedSize, this`entries, this`cache, this`evictions
      ensures Valid() && OnItsWay(noKey, cfg, start, cache) && |index| < |old(index)|
      ensures Lists(order, old(cache).index) && cache == Round(noKey, old(cache), order)
      ensures cache == LocalCacheSpec.Delete(old(cache), oldestKey)
      ensures noKey !in start.index ==> Oldest(old(cache), oldestKey)
      ensures evictions == old(evictions) + 1
    {
      oldestKey, order := FindOldest();
      EveryRoundRemoves(noKey, cfg, start, cache, order);
      RemoveEntry(oldestKey, index[oldestKey]);
      evictions := evictions + 1;
    }

    method Get(key: K, now: int) returns (r: Outcome)
      requires Valid()
      modifies this`index, this`files, this`usedSize, this`entries, this`cache, this`hits, this`misses, index.Values
      ensures Valid() && r == Lookup(cfg, old(cache), key, now) && cache == Read(cfg, old(cache), key, now)
      ensures r == Miss <==> !Readable(old(cache), key, now)
      ensures r == Miss ==> key !in cache.index
      ensures r.Hit? ==> key in cache.index && cache.index[key] == old(cache).index[key].(accessedAt := now)
      ensures hits == old(hits) + if r.Hit? then 1 else 0
      ensures misses == old(misses) + if r.Hit? then 0 else 1
    {
      if key !in index {
        misses := misses + 1;
        return Miss;
      }
      var entry := index[key];
      assert Matches(key, entry, cache.index[key]);
      if now > entry.expiresAt {
        RemoveEntry(key, entry);
        misses := misses + 1;
        return Miss;
      }
      if key !in files {
        misses := misses + 1;
        RemoveEntry(key, entry);
        return Miss;
      }
      var data := files[key];
      if entry.compressed {
        var unpacked := cfg.decompress(data);
        if unpacked.None? {
          misses := misses + 1;
          return Broken;
        }
        data := unpacked.value;
      }
      hits := hits + 1;
      Touch(key, entry, now);
      return Hit(data);
    }

    method Touch(key: K, entry: LocalCacheEntry<K>, now: int)
      requires Valid() && key in index && entry == index[key]
      modifies this`cache, entry
      ensures Valid()
      ensures cache == old(cache).(index := old(cache).index[key := old(cache).index[key].(accessedAt := now)])
    {
      entry.accessedAt := now;
      cache := cache.(index := cache.index[key := cache.index[key].(accessedAt := now)]);
      forall k | k in index
        ensures Matches(k, index[k], cache.index[k])
      {
        if k != key {
          assert old(Matches(k, index[k], cache.index[k]));
        }
      }
    }

    /** Writes the file, then the entry, then signals the evictor if the cache is filled above the mark. */
    method Set(key: K, value: seq<byte>, ttl: int, now: int)
      requires Valid()
      modifies this`index, this`files, this`usedSize, this`entries, this`cache, this`evictSignal
      ensures Valid() && cache == Write(cfg, old(cache), key, value, ttl, now)
      ensures key in cache.index && cache.index[key].accessedAt == now && cache.index[key].createdAt == now
      ensures cache.index[key].expiresAt == now + if ttl == 0 then cfg.defaultTTL else ttl
      ensures cache.index[key].compressed <==> cfg.compression && |value| > 1024 && cfg.compress(value).Some?
      ensures evictSignal <==> old(evictSignal) || cache.used > cfg.maxSize * 90 / 100
    {
      var data, compressed := value, false;
      if cfg.compression && |value| > 1024 {
        var packed := cfg.compress(value);
        if packed.Some? {
          data, compressed := packed.value, true;
        }
      }
      StoreEntry(key, data, compressed, if ttl == 0 then cfg.defaultTTL else ttl, now);
      if usedSize > cfg.maxSize * 90 / 100 {
        evictSignal := true;
      }
    }

    method StoreEntry(key: K, data: seq<byte>, compressed: bool, ttl: int, now: int)
      requires Valid()
      modifies this`index, this`files, this`usedSize, this`entries, this`cache
      ensures Valid() && cache == WithEntry(old(cache), key, data, Entry(|data|, compressed, now, now, now + ttl))
    {
      ghost var was := index;
      files := files[key := data];
      var entry := new LocalCacheEntry(key, now, ttl, |data|, compressed);
      if key in index {
        usedSize := usedSize - index[key].size;
      } else {
        entries := entries + 1;
      }
      index := index[key := entry];
      usedSize := usedSize + entry.size;
      cache := WithEntry(cache, key, data, entry.View());
      forall k | k in index
        ensures Matches(k, index[k], cache.index[k])
      {
        if k != key {
          assert old(Matches(k, was[k], cache.index[k]));
        }
      }
    }

    method Delete(key: K)
      requires Valid()
      modifies this`index, this`files, this`usedSize, this`entries, this`cache
      ensures Valid() && cache == LocalCacheSpec.Delete(old(cache), key) && cache.index == old(cache).index - {key}
    {
      if key !in index {
        return;
      }
      RemoveEntry(key, index[key]);
    }

    method Clear()
      requires Valid()
      modifies this`index, this`files, this`usedSize, this`entries, this`cache
      ensures Valid() && cache == EmptyCache()
    {
      files := map[];
      index := map[];
      usedSize, entries := 0, 0;
      cache := EmptyCache();
    }
  }
}
