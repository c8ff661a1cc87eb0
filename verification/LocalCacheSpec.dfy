/** The disk cache on values: an index of entries, the files behind them, and the counters. */
module LocalCacheSpec {
  import opened Common
  import opened MapSums

  datatype Entry = Entry(size: nat, compressed: bool, createdAt: int, accessedAt: int, expiresAt: int)

  /** Compression is any pair of functions; either may fail. */
  datatype Config = Config(maxSize: nat, defaultTTL: int, compression: bool,
                           compress: seq<byte> -> Option<seq<byte>>, decompress: seq<byte> -> Option<seq<byte>>)

  /** `files` is the disk. The source joins keys to paths: they are taken to be clean path elements, so that
      distinct keys name distinct files and no key names a directory that another one needs. */
  datatype Cache<!K> = Cache(index: map<K, Entry>, files: map<K, seq<byte>>, used: int, entries: int)

  datatype Outcome = Hit(value: seq<byte>) | Miss | Broken

  function EmptyCache<K(==)>(): Cache<K> {
    Cache(map[], map[], 0, 0)
  }

  function Target(cfg: Config): nat {
    cfg.maxSize * 80 / 100
  }

  function HighWater(cfg: Config): nat {
    cfg.maxSize * 90 / 100
  }

  /** What decompression is for. */
  ghost predicate Inverse(cfg: Config) {
    forall x: seq<byte> :: cfg.compress(x).Some? ==> cfg.decompress(cfg.compress(x).value) == Some(x)
  }

  // ---------------------------------------------------------------- the operations

  /** The bytes that are written for a value, and whether they are compressed. */
  function Packed(cfg: Config, value: seq<byte>): (seq<byte>, bool) {
    if cfg.compression && |value| > 1024 then
      var c := cfg.compress(value);
      if c.Some? then (c.value, true) else (value, false)
    else (value, false)
  }

  function Unpacked(cfg: Config, data: seq<byte>, compressed: bool): Option<seq<byte>> {
    if compressed then cfg.decompress(data) else Some(data)
  }

  function Expired(e: Entry, now: int): bool {
    now > e.expiresAt
  }

  function DeleteEntry<K(==)>(s: Cache<K>, key: K): Cache<K>
    requires key in s.index
  {
    Cache(s.index - {key}, s.files - {key}, s.used - s.index[key].size, s.entries - 1)
  }

  function NewEntry(cfg: Config, value: seq<byte>, ttl: int, now: int): Entry {
    var (data, compressed) := Packed(cfg, value);
    Entry(|data|, compressed, now, now, now + if ttl == 0 then cfg.defaultTTL else ttl)
  }

  function WithEntry<K(==)>(s: Cache<K>, key: K, data: seq<byte>, entry: Entry): Cache<K> {
    Cache(s.index[key := entry], s.files[key := data],
          s.used - (if key in s.index then s.index[key].size else 0) + entry.size,
          s.entries + if key in s.index then 0 else 1)
  }

  function Write<K(==)>(cfg: Config, s: Cache<K>, key: K, value: seq<byte>, ttl: int, now: int): Cache<K> {
    WithEntry(s, key, Packed(cfg, value).0, NewEntry(cfg, value, ttl, now))
  }

  function Lookup<K(==)>(cfg: Config, s: Cache<K>, key: K, now: int): Outcome {
    if key !in s.index || Expired(s.index[key], now) || key !in s.files then Miss
    else
      match Unpacked(cfg, s.files[key], s.index[key].compressed)
      case Some(value) => Hit(value)
      case None => Broken
  }

  /** A read drops an entry that has expired or lost its file, and stamps one that it could return. */
  function Read<K(==)>(cfg: Config, s: Cache<K>, key: K, now: int): Cache<K> {
    if key !in s.index then s
    else if Expired(s.index[key], now) || key !in s.files then DeleteEntry(s, key)
    else if Lookup(cfg, s, key, now).Hit? then s.(index := s.index[key := s.index[key].(accessedAt := now)])
    else s
  }

  function Delete<K(==)>(s: Cache<K>, key: K): Cache<K> {
    if key in s.index then DeleteEntry(s, key) else s
  }

  function Sweepable<K(==)>(s: Cache<K>, key: K, now: int): bool {
    key in s.index && Expired(s.index[key], now)
  }

  /** The expiry sweep, in the order in which it comes across the entries. */
  function Sweep<K(==)>(s: Cache<K>, now: int, order: seq<K>): Cache<K>
    decreases |order|
  {
    if order == [] then s
    else Sweep(if Sweepable(s, order[0], now) then DeleteEntry(s, order[0]) else s, now, order[1..])
  }

  function DeleteAll<K(==)>(s: Cache<K>, victims: seq<K>): Cache<K>
    decreases |victims|
  {
    if victims == [] then s else DeleteAll(Delete(s, victims[0]), victims[1..])
  }

  lemma {:induction false} DeleteAllMore<K>(s: Cache<K>, victims: seq<K>, v: K)
    ensures DeleteAll(s, victims + [v]) == Delete(DeleteAll(s, victims), v)
    decreases |victims|
  {
    if victims == [] {
      assert [] + [v] == [v] && [v][1..] == [];
    } else {
      assert (victims + [v])[1..] == victims[1..] + [v];
      DeleteAllMore(Delete(s, victims[0]), victims[1..], v);
    }
  }

  ghost predicate Oldest<K>(s: Cache<K>, key: K) {
    key in s.index && forall k :: k in s.index ==> s.index[key].accessedAt <= s.index[k].accessedAt
  }

  /** What the eviction loop may remove: as long as the target is missed, one of the entries that are
      least recently used at that moment. */
  ghost predicate EvictionOf<K>(cfg: Config, s: Cache<K>, victims: seq<K>)
    decreases |victims|
  {
    if victims == [] then s.used <= Target(cfg) || s.index.Keys == {}
    else s.used > Target(cfg) && Oldest(s, victims[0]) && EvictionOf(cfg, DeleteEntry(s, victims[0]), victims[1..])
  }

  // ---------------------------------------------------------------- what an operation comes to

  /** Index and disk have the same under the key. */
  ghost predicate SameAt<K>(s: Cache<K>, s': Cache<K>, k: K) {
    && (k in s'.index <==> k in s.index) && (k in s.index ==> s'.index[k] == s.index[k])
    && (k in s'.files <==> k in s.files) && (k in s.files ==> s'.files[k] == s.files[k])
  }

  ghost predicate GoneAt<K>(s: Cache<K>, k: K) {
    k !in s.index && k !in s.files
  }

  /** The sweep removes exactly the entries it comes across whose time is up, with their files. */
  lemma {:induction false} SweepRemovesExpired<K>(s: Cache<K>, now: int, order: seq<K>, k: K)
    ensures if k in order && k in s.index && now > s.index[k].expiresAt then GoneAt(Sweep(s, now, order), k)
            else SameAt(s, Sweep(s, now, order), k)
    decreases |order|
  {
    if order != [] {
      SweepRemovesExpired(if Sweepable(s, order[0], now) then DeleteEntry(s, order[0]) else s, now, order[1..], k);
    }
  }

  /** A value is compressed exactly when that is switched on, it has more than a kilobyte, and compressing it
      works; size and file are those of what is written. */
  lemma WriteStores<K>(cfg: Config, s: Cache<K>, key: K, value: seq<byte>, ttl: int, now: int)
    ensures var s' := Write(cfg, s, key, value, ttl, now);
            var compressed := cfg.compression && |value| > 1024 && cfg.compress(value).Some?;
            var data := if compressed then cfg.compress(value).value else value;
            && key in s'.index && key in s'.files && s'.files[key] == data
            && s'.index[key] == Entry(|data|, compressed, now, now, now + if ttl == 0 then cfg.defaultTTL else ttl)
            && forall k :: k != key ==> SameAt(s, s', k)
  {
  }

  lemma DeleteTakesOnly<K>(s: Cache<K>, key: K)
    ensures var s' := Delete(s, key);
            && (key in s.index ==> GoneAt(s', key)) && (key !in s.index ==> s' == s)
            && forall k :: k != key ==> SameAt(s, s', k)
  {
  }

  /** What is written is read back until its time is up. */
  lemma SetThenGet<K>(cfg: Config, s: Cache<K>, key: K, value: seq<byte>, ttl: int, now: int, later: int)
    requires Inverse(cfg)
    ensures Lookup(cfg, Write(cfg, s, key, value, ttl, now), key, later)
         == if later <= now + (if ttl == 0 then cfg.defaultTTL else ttl) then Hit(value) else Miss
  {
    var (data, compressed) := Packed(cfg, value);
    assert Unpacked(cfg, data, compressed) == Some(value);
  }

  /** There is an entry for the key, its time is not up, and its file is there. */
  ghost predicate Readable<K>(s: Cache<K>, key: K, now: int) {
    key in s.index && now <= s.index[key].expiresAt && key in s.files
  }

  /** A lookup hits exactly a readable entry whose file can be unpacked, and fails exactly where it cannot. */
  lemma LookupIff<K>(cfg: Config, s: Cache<K>, key: K, now: int)
    ensures Lookup(cfg, s, key, now) == Miss <==> !Readable(s, key, now)
    ensures Readable(s, key, now) ==>
              var unpacked := if s.index[key].compressed then cfg.decompress(s.files[key]) else Some(s.files[key]);
              Lookup(cfg, s, key, now) == if unpacked.Some? then Hit(unpacked.value) else Broken
  {
  }

  /** A hit stamps its entry and changes nothing else; a failure changes nothing; a miss drops the entry, if
      there is one, with its file, and changes nothing else. */
  lemma ReadLeaves<K>(cfg: Config, s: Cache<K>, key: K, now: int)
    ensures var s', r := Read(cfg, s, key, now), Lookup(cfg, s, key, now);
            && (r.Hit? ==> key in s.index && s'.index == s.index[key := s.index[key].(accessedAt := now)]
                           && s'.files == s.files && s'.used == s.used && s'.entries == s.entries)
            && (r == Broken ==> s' == s)
            && (r == Miss ==> (if key in s.index then GoneAt(s', key) else s' == s)
                              && forall k :: k != key ==> SameAt(s, s', k))
  {
  }

  /** What was read last goes last: an eviction that takes it leaves nothing. */
  lemma ReadGoesLast<K>(cfg: Config, s: Cache<K>, key: K, now: int, victims: seq<K>)
    requires Lookup(cfg, s, key, now).Hit? && forall k :: k in s.index ==> s.index[k].accessedAt < now
    requires EvictionOf(cfg, Read(cfg, s, key, now), victims) && key in victims
    ensures forall k :: k in s.index ==> k in victims
  {
    var s' := Read(cfg, s, key, now);
    forall k | k in s.index && k !in victims
      ensures false
    {
      VictimsAreOlder(cfg, s', victims, key, k);
    }
  }

  // ---------------------------------------------------------------- accounting

  ghost function Sizes<K>(index: map<K, Entry>): map<K, int> {
    map k | k in index :: index[k].size
  }

  /** The counters are the sum of the sizes and the number of entries. */
  ghost predicate Accurate<K>(s: Cache<K>) {
    s.used == Sum(Sizes(s.index)) && s.entries == |s.index.Keys|
  }

  lemma DeleteStaysAccurate<K>(s: Cache<K>, key: K)
    requires Accurate(s) && key in s.index
    ensures Accurate(DeleteEntry(s, key))
  {
    SumRemove(Sizes(s.index), key);
    assert Sizes(s.index - {key}) == Sizes(s.index) - {key};
    assert (s.index - {key}).Keys == s.index.Keys - {key};
  }

  lemma SizesWith<K>(index: map<K, Entry>, key: K, e: Entry)
    ensures Sum(Sizes(index[key := e])) == Sum(Sizes(index)) + e.size - if key in index then index[key].size else 0
  {
    SumInsert(Sizes(index), key, e.size);
    assert Sizes(index[key := e]) == Sizes(index)[key := e.size];
  }

  lemma KeysWith<K>(index: map<K, Entry>, key: K, e: Entry)
    ensures |index[key := e].Keys| == |index.Keys| + if key in index then 0 else 1
  {
    assert index[key := e].Keys == index.Keys + {key};
  }

  lemma {:induction false} DeleteAllStaysAccurate<K>(s: Cache<K>, victims: seq<K>)
    requires Accurate(s)
    ensures Accurate(DeleteAll(s, victims))
    decreases |victims|
  {
    if victims != [] {
      if victims[0] in s.index {
        DeleteStaysAccurate(s, victims[0]);
      }
      DeleteAllStaysAccurate(Delete(s, victims[0]), victims[1..]);
    }
  }

  lemma {:induction false} SweepStaysAccurate<K>(s: Cache<K>, now: int, order: seq<K>)
    requires Accurate(s)
    ensures Accurate(Sweep(s, now, order))
    decreases |order|
  {
    if order != [] {
      if Sweepable(s, order[0], now) {
        DeleteStaysAccurate(s, order[0]);
        SweepStaysAccurate(DeleteEntry(s, order[0]), now, order[1..]);
      } else {
        SweepStaysAccurate(s, now, order[1..]);
      }
    }
  }

  // ---------------------------------------------------------------- eviction

  /** The entries of `victims` are gone, with their files, and nothing else changed. */
  ghost predicate Without<K>(s: Cache<K>, s': Cache<K>, victims: seq<K>) {
    && (forall k :: k in s'.index ==> k in s.index && k !in victims && s'.index[k] == s.index[k])
    && (forall k :: k in s.index && k !in victims ==> k in s'.index)
    && (forall k :: k in s'.files ==> k in s.files && k !in victims && s'.files[k] == s.files[k])
    && (forall k :: k in s.files && k !in victims ==> k in s'.files)
  }

  lemma {:induction false} EvictionRemoves<K>(cfg: Config, s: Cache<K>, victims: seq<K>)
    requires EvictionOf(cfg, s, victims)
    ensures Without(s, DeleteAll(s, victims), victims)
    ensures forall v :: v in victims ==> v in s.index
    ensures DeleteAll(s, victims).used <= Target(cfg) || DeleteAll(s, victims).index.Keys == {}
    decreases |victims|
  {
    if victims != [] {
      EvictionRemoves(cfg, DeleteEntry(s, victims[0]), victims[1..]);
      assert forall k :: k in victims <==> k == victims[0] || k in victims[1..];
    }
  }

  /** Every victim was used no later than any survivor. */
  lemma {:induction false} VictimsAreOlder<K>(cfg: Config, s: Cache<K>, victims: seq<K>, v: K, k: K)
    requires EvictionOf(cfg, s, victims) && v in victims && k in s.index && k !in victims
    ensures v in s.index && s.index[v].accessedAt <= s.index[k].accessedAt
    decreases |victims|
  {
    if v != victims[0] {
      VictimsAreOlder(cfg, DeleteEntry(s, victims[0]), victims[1..], v, k);
    }
  }

  lemma {:induction false} LastVictimWasNeeded<K>(cfg: Config, s: Cache<K>, victims: seq<K>)
    requires EvictionOf(cfg, s, victims) && victims != []
    ensures var last := victims[|victims| - 1];
            last in s.index && DeleteAll(s, victims).used + s.index[last].size > Target(cfg)
    decreases |victims|
  {
    if |victims| > 1 {
      LastVictimWasNeeded(cfg, DeleteEntry(s, victims[0]), victims[1..]);
    }
  }

  /** Eviction from true counters: the target is met, with true counters; the victims were least recently
      used, the others stay as they were, and without the last one the target would have been missed. */
  lemma EvictionContract<K>(cfg: Config, s: Cache<K>, victims: seq<K>)
    requires Accurate(s) && EvictionOf(cfg, s, victims)
    ensures Accurate(DeleteAll(s, victims)) && DeleteAll(s, victims).used <= cfg.maxSize * 80 / 100
    ensures Without(s, DeleteAll(s, victims), victims)
    ensures forall v, k :: v in victims && k in DeleteAll(s, victims).index ==>
                             v in s.index && k in s.index && s.index[v].accessedAt <= s.index[k].accessedAt
    ensures victims != [] ==>
              var last := victims[|victims| - 1];
              last in s.index && DeleteAll(s, victims).used + s.index[last].size > cfg.maxSize * 80 / 100
    ensures s.used <= cfg.maxSize * 80 / 100 ==> victims == []
  {
    DeleteAllStaysAccurate(s, victims);
    EvictionRemoves(cfg, s, victims);
    var s' := DeleteAll(s, victims);
    if s'.index.Keys == {} {
      assert Sizes(s'.index) == map[];
    }
    forall v, k | v in victims && k in s'.index
      ensures v in s.index && k in s.index && s.index[v].accessedAt <= s.index[k].accessedAt
    {
      VictimsAreOlder(cfg, s, victims, v, k);
    }
    if victims != [] {
      LastVictimWasNeeded(cfg, s, victims);
    }
  }

  lemma {:induction false} SweepOneMore<K>(s: Cache<K>, now: int, order: seq<K>, k: K)
    ensures var swept := Sweep(s, now, order);
            Sweep(s, now, order + [k]) == if Sweepable(swept, k, now) then DeleteEntry(swept, k) else swept
    decreases |order|
  {
    if order == [] {
      assert (order + [k])[1..] == [];
    } else {
      assert (order + [k])[1..] == order[1..] + [k];
      SweepOneMore(if Sweepable(s, order[0], now) then DeleteEntry(s, order[0]) else s, now, order[1..], k);
    }
  }

  /** Eviction that starts with one more victim. */
  lemma EvictionAfter<K>(cfg: Config, s: Cache<K>, done: seq<K>, v: K, now: Cache<K>)
    requires EvictionSoFar(cfg, s, done, now)
    requires now.used > Target(cfg) && Oldest(now, v)
    ensures EvictionSoFar(cfg, s, done + [v], DeleteEntry(now, v))
    decreases |done|
  {
    if done == [] {
      assert [] + [v] == [v] && [v][1..] == [];
    } else {
      assert (done + [v])[1..] == done[1..] + [v];
      EvictionAfter(cfg, DeleteEntry(s, done[0]), done[1..], v, now);
    }
  }

  /** `now` is where the eviction of `s` is after the victims in `done`. */
  ghost predicate EvictionSoFar<K>(cfg: Config, s: Cache<K>, done: seq<K>, now: Cache<K>)
    decreases |done|
  {
    if done == [] then now == s
    else s.used > Target(cfg) && Oldest(s, done[0]) && EvictionSoFar(cfg, DeleteEntry(s, done[0]), done[1..], now)
  }

  lemma {:induction false} EvictionEnds<K>(cfg: Config, s: Cache<K>, done: seq<K>, now: Cache<K>)
    requires EvictionSoFar(cfg, s, done, now)
    requires now.used <= Target(cfg) || now.index.Keys == {}
    ensures EvictionOf(cfg, s, done) && now == DeleteAll(s, done)
    decreases |done|
  {
    if done != [] {
      EvictionEnds(cfg, DeleteEntry(s, done[0]), done[1..], now);
    }
  }

  /** An order in which the loop may meet the entries: each of them once. */
  ghost predicate Lists<K>(order: seq<K>, index: map<K, Entry>) {
    Distinct(order) && (forall k :: k in order ==> k in index) && forall k :: k in index ==> k in order
  }
}
