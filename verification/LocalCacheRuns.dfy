/** Whole runs of the disk cache, one atomic operation after the other. */
module LocalCacheRuns {
  import opened Common
  import opened LossyMaps
  import opened LocalCacheSpec

  datatype Op<K> =
    | Set(key: K, value: seq<byte>, ttl: int, now: int)
    | Get(key: K, now: int)
    | Remove(key: K)
    | Clear
    | CleanupExpired(now: int, order: seq<K>)
    | Evict(victims: seq<K>)

  function Apply<K(==)>(cfg: Config, s: Cache<K>, op: Op<K>): Cache<K> {
    match op
    case Set(key, value, ttl, now) => Write(cfg, s, key, value, ttl, now)
    case Get(key, now) => Read(cfg, s, key, now)
    case Remove(key) => Delete(s, key)
    case Clear => EmptyCache()
    case CleanupExpired(now, order) => Sweep(s, now, order)
    case Evict(victims) => DeleteAll(s, victims)
  }

  function EffectOf<K>(op: Op<K>): Effect<K> {
    match op
    case Set(key, value, _, _) => Stored(key, value)
    case Remove(key) => Removed(key)
    case Clear => Cleared
    case _ => Kept
  }

  function Run<K(==)>(cfg: Config, ops: seq<Op<K>>): Cache<K> {
    if ops == [] then EmptyCache() else Apply(cfg, Run(cfg, ops[..|ops| - 1]), ops[|ops| - 1])
  }

  /** What a map would hold after the same operations. */
  function Latest<K(==)>(ops: seq<Op<K>>): map<K, seq<byte>> {
    if ops == [] then map[] else Update(Latest(ops[..|ops| - 1]), EffectOf(ops[|ops| - 1]))
  }

  /** Every file belongs to an entry and unpacks to the value that `latest` has for its key. */
  ghost predicate Agrees<K>(cfg: Config, s: Cache<K>, latest: map<K, seq<byte>>) {
    && (forall k :: k in s.index ==> k in s.files)
    && (forall k :: k in s.files ==> k in s.index)
    && forall k :: k in s.index ==>
         && k in latest && |s.files[k]| == s.index[k].size
         && Unpacked(cfg, s.files[k], s.index[k].compressed) == Some(latest[k])
  }

  lemma {:induction false} DeleteAllAgrees<K>(cfg: Config, s: Cache<K>, victims: seq<K>, latest: map<K, seq<byte>>)
    requires Agrees(cfg, s, latest)
    ensures Agrees(cfg, DeleteAll(s, victims), latest)
    decreases |victims|
  {
    if victims != [] {
      DeleteAllAgrees(cfg, Delete(s, victims[0]), victims[1..], latest);
    }
  }

  lemma {:induction false} SweepAgrees<K>(cfg: Config, s: Cache<K>, now: int, order: seq<K>, latest: map<K, seq<byte>>)
    requires Agrees(cfg, s, latest)
    ensures Agrees(cfg, Sweep(s, now, order), latest)
    decreases |order|
  {
    if order != [] {
      SweepAgrees(cfg, if Sweepable(s, order[0], now) then DeleteEntry(s, order[0]) else s, now, order[1..], latest);
    }
  }

  lemma WriteAgrees<K>(cfg: Config, s: Cache<K>, key: K, value: seq<byte>, ttl: int, now: int,
                       latest: map<K, seq<byte>>)
    requires Inverse(cfg) && Agrees(cfg, s, latest)
    ensures Agrees(cfg, Write(cfg, s, key, value, ttl, now), latest[key := value])
  {
    var (data, compressed) := Packed(cfg, value);
    assert Unpacked(cfg, data, compressed) == Some(value);
  }

  lemma StepAgrees<K>(cfg: Config, s: Cache<K>, op: Op<K>, latest: map<K, seq<byte>>)
    requires Inverse(cfg) && Agrees(cfg, s, latest)
    ensures Agrees(cfg, Apply(cfg, s, op), Update(latest, EffectOf(op)))
  {
    match op {
      case Set(key, value, ttl, now) => WriteAgrees(cfg, s, key, value, ttl, now, latest);
      case Get(_, _) =>
      case Remove(_) =>
      case Clear =>
      case CleanupExpired(now, order) => SweepAgrees(cfg, s, now, order, latest);
      case Evict(victims) => DeleteAllAgrees(cfg, s, victims, latest);
    }
  }

  lemma {:induction false} RunAgrees<K>(cfg: Config, ops: seq<Op<K>>)
    requires Inverse(cfg)
    ensures Agrees(cfg, Run(cfg, ops), Latest(ops))
  {
    if ops != [] {
      RunAgrees(cfg, ops[..|ops| - 1]);
      StepAgrees(cfg, Run(cfg, ops[..|ops| - 1]), ops[|ops| - 1], Latest(ops[..|ops| - 1]));
    }
  }

  /** In every run, a lookup misses or returns exactly the bytes last set under the key: it never fails to
      unpack them and never returns older ones, compressed or not. It misses only for a key that has no
      entry or whose entry has expired. */
  lemma LookupIsLatest<K>(cfg: Config, ops: seq<Op<K>>, key: K, now: int)
    requires Inverse(cfg)
    ensures var s, r := Run(cfg, ops), Lookup(cfg, Run(cfg, ops), key, now);
            && (r == Miss || (key in Latest(ops) && r == Hit(Latest(ops)[key])))
            && (r == Miss <==> key !in s.index || now > s.index[key].expiresAt)
  {
    RunAgrees(cfg, ops);
  }

  lemma {:induction false} LatestWasSet<K>(ops: seq<Op<K>>, key: K) returns (i: nat)
    requires key in Latest(ops)
    ensures i < |ops| && ops[i].Set? && ops[i].key == key && ops[i].value == Latest(ops)[key]
    ensures forall j :: i < j < |ops| ==> !ops[j].Clear? && ops[j] != Remove(key) && !(ops[j].Set? && ops[j].key == key)
  {
    var n := |ops| - 1;
    if ops[n].Set? && ops[n].key == key {
      i := n;
    } else {
      i := LatestWasSet(ops[..n], key);
    }
  }

  /** So what a lookup finds is what the last `Set` of the key stored, and nothing has removed it since. */
  lemma LookupWasSet<K>(cfg: Config, ops: seq<Op<K>>, key: K, now: int) returns (i: nat)
    requires Inverse(cfg) && Lookup(cfg, Run(cfg, ops), key, now) != Miss
    ensures i < |ops| && ops[i].Set? && ops[i].key == key && Lookup(cfg, Run(cfg, ops), key, now) == Hit(ops[i].value)
    ensures forall j :: i < j < |ops| ==> !ops[j].Clear? && ops[j] != Remove(key) && !(ops[j].Set? && ops[j].key == key)
  {
    LookupIsLatest(cfg, ops, key, now);
    i := LatestWasSet(ops, key);
  }

  lemma StepAccurate<K>(cfg: Config, s: Cache<K>, op: Op<K>)
    requires Accurate(s)
    ensures Accurate(Apply(cfg, s, op))
  {
    match op {
      case Set(key, value, ttl, now) =>
        SizesWith(s.index, key, NewEntry(cfg, value, ttl, now));
        KeysWith(s.index, key, NewEntry(cfg, value, ttl, now));
      case Get(key, now) =>
        if Lookup(cfg, s, key, now).Hit? {
          SizesWith(s.index, key, s.index[key].(accessedAt := now));
          KeysWith(s.index, key, s.index[key].(accessedAt := now));
        } else if key in s.index {
          DeleteStaysAccurate(s, key);
        }
      case Remove(key) =>
        if key in s.index {
          DeleteStaysAccurate(s, key);
        }
      case Clear => EmptyIsAccurate<K>();
      case CleanupExpired(now, order) => SweepStaysAccurate(s, now, order);
      case Evict(victims) => DeleteAllStaysAccurate(s, victims);
    }
  }

  lemma EmptyIsAccurate<K>()
    ensures Accurate(EmptyCache<K>())
  {
    assert Sizes(EmptyCache<K>().index) == map[];
  }

  /** In every run the counters are the true sum and the true count. */
  lemma {:induction false} RunAccurate<K>(cfg: Config, ops: seq<Op<K>>)
    ensures Accurate(Run(cfg, ops))
  {
    if ops == [] {
      EmptyIsAccurate<K>();
    } else {
      RunAccurate(cfg, ops[..|ops| - 1]);
      StepAccurate(cfg, Run(cfg, ops[..|ops| - 1]), ops[|ops| - 1]);
    }
  }

  /** What the cache holds: the values that can be read back. */
  ghost function Contents<K>(cfg: Config, s: Cache<K>): map<K, seq<byte>>
    requires forall k :: k in s.index ==> k in s.files && Unpacked(cfg, s.files[k], s.index[k].compressed).Some?
  {
    map k | k in s.index :: Unpacked(cfg, s.files[k], s.index[k].compressed).value
  }

  /** Every single operation is a step of a map that may forget. */
  lemma StepIsLossy<K>(cfg: Config, s: Cache<K>, op: Op<K>, latest: map<K, seq<byte>>)
    requires Inverse(cfg) && Agrees(cfg, s, latest)
    ensures Agrees(cfg, Apply(cfg, s, op), Update(latest, EffectOf(op)))
    ensures Lossy(Contents(cfg, s), EffectOf(op), Contents(cfg, Apply(cfg, s, op)))
  {
    StepAgrees(cfg, s, op, latest);
    assert Agrees(cfg, s, Contents(cfg, s));
    StepAgrees(cfg, s, op, Contents(cfg, s));
  }
}
