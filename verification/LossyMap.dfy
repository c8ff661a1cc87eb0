/** A cache, seen from outside, is a map that may forget: what it holds is what a map would hold. */
module LossyMaps {
  import opened Common

  /** What an operation does to the map that the cache stands for. */
  datatype Effect<+K> = Stored(key: K, value: seq<byte>) | Removed(key: K) | Cleared | Kept

  function Update<K(==)>(m: map<K, seq<byte>>, e: Effect<K>): map<K, seq<byte>> {
    match e
    case Stored(key, value) => m[key := value]
    case Removed(key) => m - {key}
    case Cleared => map[]
    case Kept => m
  }

  /** `after` is what is left of `before` once the effect took place and anything may have been forgotten. */
  ghost predicate Lossy<K>(before: map<K, seq<byte>>, e: Effect<K>, after: map<K, seq<byte>>) {
    Submap(after, Update(before, e))
  }

  /** Holding less than a map held is kept up by lossy steps. */
  lemma LossyStep<K>(before: map<K, seq<byte>>, latest: map<K, seq<byte>>, e: Effect<K>, after: map<K, seq<byte>>)
    requires Submap(before, latest) && Lossy(before, e, after)
    ensures Submap(after, Update(latest, e))
  {
  }
}
