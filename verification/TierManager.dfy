/** The manager of multi-tier caches as its own objects. */
module TierManagers {
  import opened Common
  import opened LossyMaps
  import opened TierSpec

  /** Any cache tier: each operation is a step of a map that may forget, and may fail. `PrefixStoreRuns`
      and `LocalCacheRuns` show that the two in-memory caches are such maps. A tier knows its place, so no
      two places hold the same one. */
  class Tier {
    const name: string
    ghost const cache: string
    ghost const index: nat
    var contents: Contents
    /** The writes it was sent, successful or not. */
    ghost var sent: seq<Effect<string>>
    /** What it answered when it was asked. */
    ghost var answers: seq<Option<seq<byte>>>

    constructor (name: string, ghost cache: string, ghost index: nat)
      ensures this.name == name && this.cache == cache && this.index == index
      ensures contents == map[] && sent == [] && answers == []
    {
      this.name, this.cache, this.index, contents, sent, answers := name, cache, index, map[], [], [];
    }

    /** Evictions and expiries, at the tier's own choice. */
    method Forget()
      modifies this`contents
      ensures Submap(contents, old(contents))
    {
      var keep: set<string> :| keep <= contents.Keys;
      contents := map k | k in keep :: contents[k];
    }

    method Get(key: string) returns (r: Option<seq<byte>>)
      modifies this`contents, this`answers
      ensures Lossy(old(contents), Kept, contents) && answers == old(answers) + [r]
      ensures r.Some? ==> key in old(contents) && r.value == old(contents)[key]
    {
      Forget();
      var found: bool := *;
      r := if found && key in contents then Some(contents[key]) else None;
      answers := answers + [r];
    }

    method Apply(e: Effect<string>) returns (ok: bool)
      modifies this`contents, this`sent
      ensures Lossy(old(contents), if ok then e else Kept, contents)
      ensures sent == old(sent) + [e]
    {
      ok := *;
      if ok {
        contents := Update(contents, e);
      }
      Forget();
      sent := sent + [e];
    }

    method Set(key: string, value: seq<byte>) returns (ok: bool)
      modifies this`contents, this`sent
      ensures Lossy(old(contents), if ok then Stored(key, value) else Kept, contents)
      ensures sent == old(sent) + [Stored(key, value)]
    {
      ok := Apply(Stored(key, value));
    }

    method Delete(key: string) returns (ok: bool)
      modifies this`contents, this`sent
      ensures Lossy(old(contents), if ok then Removed(key) else Kept, contents)
      ensures sent == old(sent) + [Removed(key)]
    {
      ok := Apply(Removed(key));
    }

    method Clear() returns (ok: bool)
      modifies this`contents, this`sent
      ensures Lossy(old(contents), if ok then Cleared else Kept, contents)
      ensures sent == old(sent) + [Cleared]
    {
      ok := Apply(Cleared);
    }
  }

  /** What the tiers hold. */
  ghost function Held(tiers: seq<Tier>): (ts: Tiers)
    reads tiers
    ensures |ts| == |tiers| && forall i :: 0 <= i < |tiers| ==> ts[i] == tiers[i].contents
  {
    seq(|tiers|, i requires 0 <= i < |tiers| reads tiers => tiers[i].contents)
  }

  /** Tiers of the named cache, in their places. */
  ghost predicate Placed(tiers: seq<Tier>, cache: string) {
    forall i :: 0 <= i < |tiers| ==> tiers[i].cache == cache && tiers[i].index == i
  }

  datatype TierKind = PrefixKind | LocalKind | RedisKind | OtherKind

  datatype TierConfig = TierConfig(name: string, kind: TierKind)

  datatype CacheConfig = CacheConfig(tiers: seq<Tier>, policy: string)

  datatype GetResult = NoCache | NotFound | Found(value: seq<byte>)

  /** What the tiers were sent. */
  ghost function Sent(tiers: seq<Tier>): (logs: seq<seq<Effect<string>>>)
    reads tiers
    ensures |logs| == |tiers| && forall i :: 0 <= i < |tiers| ==> logs[i] == tiers[i].sent
  {
    seq(|tiers|, i requires 0 <= i < |tiers| reads tiers => tiers[i].sent)
  }

  /** The effect was sent to exactly the tiers in `targets`, once each. */
  ghost predicate SentTo(logs: seq<seq<Effect<string>>>, e: Effect<string>, targets: set<nat>,
                         logs': seq<seq<Effect<string>>>) {
    |logs'| == |logs| && forall i :: 0 <= i < |logs| ==> logs'[i] == logs[i] + if i in targets then [e] else []
  }

  /** What the tiers answered. */
  ghost function Answers(tiers: seq<Tier>): (logs: seq<seq<Option<seq<byte>>>>)
    reads tiers
    ensures |logs| == |tiers| && forall i :: 0 <= i < |tiers| ==> logs[i] == tiers[i].answers
  {
    seq(|tiers|, i requires 0 <= i < |tiers| reads tiers => tiers[i].answers)
  }

  /** The tiers before `hit` were asked and had nothing, the one at `hit` had the value, and the ones after
      it were not asked. With `hit` past the end, all were asked in vain. */
  ghost predicate AnsweredAt(logs: seq<seq<Option<seq<byte>>>>, hit: nat, value: seq<byte>,
                             logs': seq<seq<Option<seq<byte>>>>) {
    |logs'| == |logs| && forall i :: 0 <= i < |logs| ==>
      logs'[i] == logs[i] + if i < hit then [None] else if i == hit then [Some(value)] else []
  }

  /** A step of the tiers of one cache. */
  twostate predicate Stepped(config: CacheConfig, op: Op)
    reads config.tiers
  {
    Step(config.policy, old(Held(config.tiers)), op, Held(config.tiers))
  }

  twostate predicate Told(config: CacheConfig, e: Effect<string>, targets: set<nat>)
    reads config.tiers
  {
    SentTo(old(Sent(config.tiers)), e, targets, Sent(config.tiers))
  }

  twostate predicate Replied(config: CacheConfig, hit: nat, value: seq<byte>)
    reads config.tiers
  {
    AnsweredAt(old(Answers(config.tiers)), hit, value, Answers(config.tiers))
  }

  class Manager {
    var caches: map<string, CacheConfig>

    ghost predicate Valid()
      reads this
    {
      forall c :: c in caches ==> Placed(caches[c].tiers, c)
    }

    constructor ()
      ensures Valid() && caches == map[]
    {
      caches := map[];
    }

    ghost function TiersOf(name: string): seq<Tier>
      reads this
    {
      if name in caches then caches[name].tiers else []
    }

    /** Creates the tiers, all empty, unless one is of a kind that is not known. */
    method ConfigureCache(name: string, tiers: seq<TierConfig>, policy: string) returns (ok: bool)
      requires Valid()
      modifies this
      ensures Valid() && ok == (forall i :: 0 <= i < |tiers| ==> tiers[i].kind != OtherKind)
      ensures !ok ==> caches == old(caches)
      ensures ok ==> name in caches && caches == old(caches)[name := caches[name]] && caches[name].policy == policy
      ensures ok ==> fresh(caches[name].tiers) && Held(caches[name].tiers) == seq(|tiers|, i => map[])
      ensures ok ==> forall i :: 0 <= i < |tiers| ==> caches[name].tiers[i].name == tiers[i].name
    {
      var created := [];
      for i := 0 to |tiers|
        invariant caches == old(caches) && |created| == i && Placed(created, name) && fresh(created)
        invariant forall j :: 0 <= j < i ==> created[j].contents == map[] && created[j].name == tiers[j].name
        invariant forall j :: 0 <= j < i ==> tiers[j].kind != OtherKind
      {
        if tiers[i].kind == OtherKind {
          return false;
        }
        var tier := new Tier(tiers[i].name, name, i);
        created := created + [tier];
      }
      caches := caches[name := CacheConfig(created, policy)];
      return true;
    }

    /** Clears the tiers, whether they succeed or not, and forgets the cache. */
    method CleanupCache(name: string) returns (ghost reached: set<nat>)
      requires Valid()
      modifies this`caches, TiersOf(name)
      ensures Valid() && caches == old(caches) - {name}
      ensures name in old(caches) ==> var config := old(caches)[name];
                Stepped(config, Op.Clear(reached)) && Told(config, Cleared, Indices(|config.tiers|))
    {
      reached := {};
      if name !in caches {
        return;
      }
      var config := caches[name];
      reached := ApplyToAll(config.tiers, name, Cleared);
      assert Stepped(config, Op.Clear(reached)) && Told(config, Cleared, Indices(|config.tiers|));
      caches := caches - {name};
    }

    /** Sends the operation to all tiers; those that fail are passed over. */
    static method ApplyToAll(tiers: seq<Tier>, ghost cache: string, e: Effect<string>) returns (ghost reached: set<nat>)
      requires Placed(tiers, cache) && !e.Kept?
      modifies tiers
      ensures reached <= Indices(|tiers|) && Reaches(old(Held(tiers)), e, reached, Held(tiers))
      ensures SentTo(old(Sent(tiers)), e, Indices(|tiers|), Sent(tiers))
    {
      reached := {};
      ghost var held, sent := Held(tiers), Sent(tiers);
      for i := 0 to |tiers|
        invariant ReachesFirst(held, e, reached, i, Held(tiers)) && SentTo(sent, e, Indices(i), Sent(tiers))
      {
        reached := ApplyNext(tiers, cache, i, e, held, sent, reached);
      }
    }

    static method ApplyAt(tiers: seq<Tier>, ghost cache: string, i: nat, e: Effect<string>) returns (ok: bool)
      requires Placed(tiers, cache) && i < |tiers| && !e.Kept?
      modifies tiers`contents, tiers`sent
      ensures Held(tiers) == old(Held(tiers))[i := tiers[i].contents]
      ensures Lossy(old(Held(tiers))[i], if ok then e else Kept, tiers[i].contents)
      ensures Sent(tiers) == old(Sent(tiers))[i := old(Sent(tiers))[i] + [e]]
    {
      ok := ApplyTo(tiers[i], e);
    }

    /** One turn of a loop over the tiers, which held and had been sent `held` and `sent` when it began. */
    static method ApplyNext(tiers: seq<Tier>, ghost cache: string, i: nat, e: Effect<string>, ghost held: Tiers,
                            ghost sent: seq<seq<Effect<string>>>, ghost reached: set<nat>)
      returns (ghost reached': set<nat>)
      requires Placed(tiers, cache) && i < |tiers| && !e.Kept?
      requires ReachesFirst(held, e, reached, i, Held(tiers)) && SentTo(sent, e, Indices(i), Sent(tiers))
      modifies tiers`contents, tiers`sent
      ensures ReachesFirst(held, e, reached', i + 1, Held(tiers)) && SentTo(sent, e, Indices(i + 1), Sent(tiers))
    {
      ghost var held1, sent1 := Held(tiers), Sent(tiers);
      var ok := ApplyAt(tiers, cache, i, e);
      OneMoreReached(held, e, reached, i, held1, ok, tiers[i].contents);
      OneMoreSent(sent, e, i, sent1);
      reached' := if ok then reached + {i} else reached;
    }

    static method ApplyTo(tier: Tier, e: Effect<string>) returns (ok: bool)
      requires !e.Kept?
      modifies tier`contents, tier`sent
      ensures Lossy(old(tier.contents), if ok then e else Kept, tier.contents)
      ensures tier.sent == old(tier.sent) + [e]
    {
      match e {
        case Stored(key, value) => ok := tier.Set(key, value);
        case Removed(key) => ok := tier.Delete(key);
        case Cleared => ok := tier.Clear();
      }
    }

    /** Asks the tiers in order. Under write-through, a value found is then copied to the tiers above the
        first one with the name of the tier that had it. */
    method Get(name: string, key: string) returns (r: GetResult, ghost op: Op)
      requires Valid()
      modifies TiersOf(name)
      ensures r == NoCache <==> name !in caches
      ensures name in caches ==> op.Get? && op.key == key && Stepped(caches[name], op)
      ensures name in caches ==> (r.Found? <==> op.hit.Some?)
      ensures name in caches && !r.Found? ==> Replied(caches[name], |caches[name].tiers|, [])
      ensures r.Found? ==> var config, hit := caches[name], op.hit.value;
                && hit < |config.tiers| && old(Held(config.tiers))[hit][key] == r.value && Replied(config, hit, r.value)
                && Told(config, Stored(key, r.value), PromotedTo(config, hit))
      ensures name in caches && (r.Found? ==> caches[name].policy != "write-through") ==>
                Sent(caches[name].tiers) == old(Sent(caches[name].tiers))
    {
      op := Op.Get(key, None, {});
      if name !in caches {
        return NoCache, op;
      }
      r, op := GetFrom(caches[name], name, key);
    }

    /** The read in the tiers of one cache. */
    static method GetFrom(config: CacheConfig, ghost cache: string, key: string) returns (r: GetResult, ghost op: Op)
      requires Placed(config.tiers, cache)
      modifies config.tiers
      ensures r != NoCache && op.Get? && op.key == key && Stepped(config, op) && (r.Found? <==> op.hit.Some?)
      ensures !r.Found? ==> Replied(config, |config.tiers|, [])
      ensures r.Found? ==> var hit := op.hit.value;
                && hit < |config.tiers| && old(Held(config.tiers))[hit][key] == r.value && Replied(config, hit, r.value)
                && Told(config, Stored(key, r.value), PromotedTo(config, hit))
      ensures (r.Found? ==> config.policy != "write-through") ==> Sent(config.tiers) == old(Sent(config.tiers))
    {
      op := Op.Get(key, None, {});
      ghost var before := Held(config.tiers);
      var hit, value := Ask(config.tiers, cache, key);
      if hit == |config.tiers| {
        return NotFound, op;
      }
      ghost var asked := Held(config.tiers);
      ghost var promoted := PromoteFrom(config, cache, hit, key, value);
      GetSteps(config.policy, before, asked, Held(config.tiers), key, hit, promoted);
      return Found(value), Op.Get(key, Some(hit), promoted);
    }

    /** Promotes the value under write-through. */
    static method PromoteFrom(config: CacheConfig, ghost cache: string, hit: nat, key: string, value: seq<byte>)
      returns (ghost promoted: set<nat>)
      requires Placed(config.tiers, cache) && hit < |config.tiers|
      modifies config.tiers`contents, config.tiers`sent
      ensures promoted <= PromotedTo(config, hit)
      ensures Reaches(old(Held(config.tiers)), Stored(key, value), promoted, Held(config.tiers))
      ensures SentTo(old(Sent(config.tiers)), Stored(key, value), PromotedTo(config, hit), Sent(config.tiers))
      ensures config.policy != "write-through" ==> Sent(config.tiers) == old(Sent(config.tiers))
      ensures Answers(config.tiers) == old(Answers(config.tiers))
    {
      if config.policy == WRITE_THROUGH {
        promoted := PromoteToPreviousTiers(config.tiers, cache, hit, key, value);
      } else {
        promoted := {};
      }
    }

    /** Finds the first tier that has the key. */
    static method Ask(tiers: seq<Tier>, ghost cache: string, key: string) returns (hit: nat, value: seq<byte>)
      requires Placed(tiers, cache)
      modifies tiers
      ensures hit <= |tiers| && Reaches(old(Held(tiers)), Kept, {}, Held(tiers)) && Sent(tiers) == old(Sent(tiers))
      ensures AnsweredAt(old(Answers(tiers)), hit, value, Answers(tiers))
      ensures hit < |tiers| ==> key in old(tiers[hit].contents) && value == old(tiers[hit].contents)[key]
    {
      hit, value := 0, [];
      while hit < |tiers|
        invariant hit <= |tiers| && forall j :: 0 <= j < |tiers| ==> tiers[j].sent == old(tiers[j].sent)
        invariant forall j :: 0 <= j < hit ==> Lossy(old(tiers[j].contents), Kept, tiers[j].contents)
        invariant forall j :: 0 <= j < hit ==> tiers[j].answers == old(tiers[j].answers) + [None]
        invariant forall j :: hit <= j < |tiers| ==>
                    tiers[j].contents == old(tiers[j].contents) && tiers[j].answers == old(tiers[j].answers)
      {
        var r := tiers[hit].Get(key);
        if r.Some? {
          value := r.value;
          return;
        }
        hit := hit + 1;
      }
    }

    static method PromoteToPreviousTiers(tiers: seq<Tier>, ghost cache: string, current: nat, key: string,
                                         value: seq<byte>)
      returns (ghost promoted: set<nat>)
      requires Placed(tiers, cache) && current < |tiers|
      modifies tiers`contents, tiers`sent
      ensures promoted <= Above(tiers, current) <= Indices(current)
      ensures Reaches(old(Held(tiers)), Stored(key, value), promoted, Held(tiers))
      ensures SentTo(old(Sent(tiers)), Stored(key, value), Above(tiers, current), Sent(tiers))
    {
      promoted := {};
      var i, e := 0, Stored(key, value);
      ghost var held, sent, stop := Held(tiers), Sent(tiers), StopsAt(tiers, current);
      while i < |tiers| && tiers[i].name != tiers[current].name
        invariant i <= stop
        invariant ReachesFirst(held, e, promoted, i, Held(tiers)) && SentTo(sent, e, Indices(i), Sent(tiers))
      {
        promoted := ApplyNext(tiers, cache, i, e, held, sent, promoted);
        i := i + 1;
      }
      assert i == stop;
    }

    /** Sends the value to the tiers that the policy names, and reports a failure only where that is a
        single tier. */
    method Set(name: string, key: string, value: seq<byte>) returns (ok: bool, ghost reached: set<nat>)
      requires Valid()
      modifies TiersOf(name)
      ensures name !in caches ==> !ok
      ensures name in caches ==> var config := caches[name];
                && Stepped(config, Op.Set(key, value, reached))
                && Told(config, Stored(key, value), Targets(config.policy, |config.tiers|))
                && EffectOf(config.policy, |config.tiers|, Op.Set(key, value, reached))
                     == if ok then Stored(key, value) else Kept
      ensures name in caches ==> var config := caches[name];
                var n := |config.tiers|;
                && (forall i :: 0 <= i < n ==>
                      var here := && (config.policy == "write-back" ==> i == 0)
                                  && (config.policy == "write-around" ==> i == n - 1);
                      config.tiers[i].sent == old(config.tiers[i].sent) + if here then [Stored(key, value)] else [])
                && (!ok <==> n > 0 && reached == {}
                             && (config.policy == "write-back" || config.policy == "write-around"))
    {
      reached := {};
      if name !in caches {
        return false, reached;
      }
      ok, reached := Store(caches[name], name, Stored(key, value));
      ghost var config := caches[name];
      forall i: nat
        ensures i in Targets(config.policy, |config.tiers|) <==>
                  && i < |config.tiers| && (config.policy == "write-back" ==> i == 0)
                  && (config.policy == "write-around" ==> i == |config.tiers| - 1)
      {
        TargetsAre(config.policy, |config.tiers|, i);
      }
    }

    /** Sends the write to the tiers that the policy names. */
    static method Store(config: CacheConfig, ghost cache: string, e: Effect<string>)
      returns (ok: bool, ghost reached: set<nat>)
      requires Placed(config.tiers, cache) && e.Stored?
      modifies config.tiers
      ensures var targets := Targets(config.policy, |config.tiers|);
              && reached <= targets && Reaches(old(Held(config.tiers)), e, reached, Held(config.tiers))
              && SentTo(old(Sent(config.tiers)), e, targets, Sent(config.tiers))
              && ok == !(SingleTarget(config.policy) && reached != targets)
    {
      if config.policy == WRITE_BACK {
        ok, reached := ApplyToOne(config.tiers, cache, 0, e);
      } else if config.policy == WRITE_AROUND {
        ok, reached := ApplyToOne(config.tiers, cache, if |config.tiers| > 0 then |config.tiers| - 1 else 0, e);
      } else {
        reached := ApplyToAll(config.tiers, cache, e);
        ok := true;
      }
    }

    /** Sends the operation to the tier at `i`, if there are any tiers. */
    static method ApplyToOne(tiers: seq<Tier>, ghost cache: string, i: nat, e: Effect<string>)
      returns (ok: bool, ghost reached: set<nat>)
      requires Placed(tiers, cache) && !e.Kept? && (i < |tiers| || tiers == [])
      modifies tiers
      ensures ok <==> reached == if tiers == [] then {} else {i}
      ensures reached <= (if tiers == [] then {} else {i}) && Reaches(old(Held(tiers)), e, reached, Held(tiers))
      ensures SentTo(old(Sent(tiers)), e, if tiers == [] then {} else {i}, Sent(tiers))
    {
      ok, reached := true, {};
      if |tiers| > 0 {
        ok := ApplyTo(tiers[i], e);
        reached := if ok then {i} else {};
      }
    }

    method Delete(name: string, key: string) returns (ok: bool, ghost reached: set<nat>)
      requires Valid()
      modifies TiersOf(name)
      ensures ok == (name in caches)
      ensures ok ==> var config := caches[name];
                Stepped(config, Op.Delete(key, reached)) && Told(config, Removed(key), Indices(|config.tiers|))
    {
      reached := {};
      if name !in caches {
        return false, reached;
      }
      reached := ApplyToAll(caches[name].tiers, name, Removed(key));
      ok := true;
    }

    /** Clears all tiers, whatever the pattern. */
    method Invalidate(name: string, pattern: string) returns (ok: bool, ghost reached: set<nat>)
      requires Valid()
      modifies TiersOf(name)
      ensures ok == (name in caches)
      ensures ok ==> var config := caches[name];
                Stepped(config, Op.Clear(reached)) && Told(config, Cleared, Indices(|config.tiers|))
    {
      reached := {};
      if name !in caches {
        return false, reached;
      }
      reached := ApplyToAll(caches[name].tiers, name, Cleared);
      ok := true;
    }

    /** Stores every prefix in all tiers, whatever the policy. `trace` lists the contents gone through. */
    method WarmupCache(name: string, prefixes: seq<string>, utf8: string -> seq<byte>)
      returns (ghost ops: seq<Op>, ghost trace: seq<Tiers>)
      requires Valid()
      modifies TiersOf(name)
      ensures |ops| == |prefixes| && |trace| == |ops| + 1
      ensures name in caches ==> trace[0] == old(Held(caches[name].tiers)) && trace[|ops|] == Held(caches[name].tiers)
      ensures name in caches ==> Warmed(caches[name].policy, trace, ops, prefixes, utf8)
      ensures name in caches ==> var tiers := caches[name].tiers;
                SentAll(old(Sent(tiers)), WarmEffects(prefixes, |prefixes|, utf8), Sent(tiers))
    {
      ops, trace := seq(|prefixes|, i => Op.Forget), seq(|prefixes| + 1, i => []);
      if name !in caches {
        return;
      }
      var config := caches[name];
      ops, trace := [], [Held(config.tiers)];
      ghost var sent := Sent(config.tiers);
      for i := 0 to |prefixes|
        invariant |ops| == i && |trace| == i + 1
        invariant trace[0] == old(Held(config.tiers)) && trace[i] == Held(config.tiers)
        invariant Warmed(config.policy, trace, ops, prefixes, utf8)
        invariant SentAll(sent, WarmEffects(prefixes, i, utf8), Sent(config.tiers))
      {
        OneMoreSentAll(sent, prefixes, i, utf8, Sent(config.tiers));
        ghost var reached := ApplyToAll(config.tiers, name, Stored("prefix:" + prefixes[i], utf8(prefixes[i])));
        ghost var op := Op.Warm("prefix:" + prefixes[i], utf8(prefixes[i]), reached);
        OneMoreWarmed(config.policy, trace, ops, prefixes, utf8, Held(config.tiers), op);
        trace, ops := trace + [Held(config.tiers)], ops + [op];
      }
    }
  }

  /** The effect was sent to the first `n` tiers so far, and took place on those in `reached`. */
  ghost predicate ReachesFirst(ts: Tiers, e: Effect<string>, reached: set<nat>, n: nat, ts': Tiers) {
    && reached <= Indices(n) && Reaches(ts, e, reached, ts')
    && forall i :: n <= i < |ts| ==> ts'[i] == ts[i]
  }

  lemma OneMoreReached(ts: Tiers, e: Effect<string>, reached: set<nat>, n: nat, ts1: Tiers, ok: bool, c: Contents)
    requires ReachesFirst(ts, e, reached, n, ts1) && n < |ts|
    requires Lossy(ts1[n], if ok then e else Kept, c)
    ensures ReachesFirst(ts, e, if ok then reached + {n} else reached, n + 1, ts1[n := c])
  {
  }

  lemma OneMoreSent(logs: seq<seq<Effect<string>>>, e: Effect<string>, n: nat, logs1: seq<seq<Effect<string>>>)
    requires SentTo(logs, e, Indices(n), logs1) && n < |logs|
    ensures SentTo(logs, e, Indices(n + 1), logs1[n := logs1[n] + [e]])
  {
  }

  /** The effects were sent to every tier, in this order. */
  ghost predicate SentAll(logs: seq<seq<Effect<string>>>, es: seq<Effect<string>>, logs': seq<seq<Effect<string>>>) {
    |logs'| == |logs| && forall i :: 0 <= i < |logs| ==> logs'[i] == logs[i] + es
  }

  /** What a warm-up sends for its first `n` prefixes. */
  ghost function WarmEffects(prefixes: seq<string>, n: nat, utf8: string -> seq<byte>): seq<Effect<string>>
    requires n <= |prefixes|
  {
    seq(n, i requires 0 <= i < n => Stored("prefix:" + prefixes[i], utf8(prefixes[i])))
  }

  lemma OneMoreSentAll(logs: seq<seq<Effect<string>>>, prefixes: seq<string>, n: nat, utf8: string -> seq<byte>,
                       logs1: seq<seq<Effect<string>>>)
    requires n < |prefixes| && SentAll(logs, WarmEffects(prefixes, n, utf8), logs1)
    ensures var e := Stored("prefix:" + prefixes[n], utf8(prefixes[n]));
            forall logs2 {:trigger SentTo(logs1, e, Indices(|logs|), logs2)} ::
              SentTo(logs1, e, Indices(|logs|), logs2) ==> SentAll(logs, WarmEffects(prefixes, n + 1, utf8), logs2)
  {
    var e := Stored("prefix:" + prefixes[n], utf8(prefixes[n]));
    assert WarmEffects(prefixes, n + 1, utf8) == WarmEffects(prefixes, n, utf8) + [e];
    forall logs2 | SentTo(logs1, e, Indices(|logs|), logs2)
      ensures SentAll(logs, WarmEffects(prefixes, n + 1, utf8), logs2)
    {
      assert forall i :: 0 <= i < |logs| ==> logs2[i] == logs1[i] + [e];
    }
  }

  /** Step `i` of a warm-up. */
  ghost predicate WarmStep(policy: string, trace: seq<Tiers>, ops: seq<Op>, i: nat, prefix: string,
                           utf8: string -> seq<byte>)
    requires i < |ops| < |trace|
  {
    && ops[i].Warm? && ops[i].key == "prefix:" + prefix && ops[i].value == utf8(prefix)
    && Step(policy, trace[i], ops[i], trace[i + 1])
  }

  ghost predicate Warmed(policy: string, trace: seq<Tiers>, ops: seq<Op>, prefixes: seq<string>,
                         utf8: string -> seq<byte>) {
    |ops| <= |prefixes| && |trace| == |ops| + 1
    && forall i :: 0 <= i < |ops| ==> WarmStep(policy, trace, ops, i, prefixes[i], utf8)
  }

  lemma OneMoreWarmed(policy: string, trace: seq<Tiers>, ops: seq<Op>, prefixes: seq<string>,
                      utf8: string -> seq<byte>, ts: Tiers, op: Op)
    requires Warmed(policy, trace, ops, prefixes, utf8) && |ops| < |prefixes|
    requires op.Warm? && op.key == "prefix:" + prefixes[|ops|] && op.value == utf8(prefixes[|ops|])
    requires Step(policy, trace[|ops|], op, ts)
    ensures Warmed(policy, trace + [ts], ops + [op], prefixes, utf8)
  {
    forall i | 0 <= i <= |ops|
      ensures WarmStep(policy, trace + [ts], ops + [op], i, prefixes[i], utf8)
    {
      assert i < |ops| ==> WarmStep(policy, trace, ops, i, prefixes[i], utf8);
    }
  }

  /** The tiers that a promotion from `current` is sent to: with distinct names those above it, see
      `PromotionStopsAtHitIff`. */
  ghost function Above(tiers: seq<Tier>, current: nat): set<nat>
    requires current < |tiers|
  {
    Indices(StopsAt(tiers, current))
  }

  ghost function PromotedTo(config: CacheConfig, hit: nat): (targets: set<nat>)
    requires hit < |config.tiers|
    ensures targets <= if config.policy == WRITE_THROUGH then Indices(hit) else {}
  {
    if config.policy == WRITE_THROUGH then Above(config.tiers, hit) else {}
  }

  /** Only under write-through is anything promoted, and then to every tier that comes before the first one with the
      name of the tier that was hit. */
  lemma PromotedToIs(config: CacheConfig, hit: nat, i: nat)
    requires hit < |config.tiers|
    ensures i in PromotedTo(config, hit)
       <==> && config.policy == "write-through" && i < |config.tiers|
            && forall j :: 0 <= j <= i ==> config.tiers[j].name != config.tiers[hit].name
  {
    var stop := StopsAt(config.tiers, hit);
    assert config.tiers[stop].name == config.tiers[hit].name;
  }

  ghost function StopsAt(tiers: seq<Tier>, current: nat): (n: nat)
    requires current < |tiers|
    ensures n <= current && tiers[n].name == tiers[current].name
    ensures forall i :: 0 <= i < n ==> tiers[i].name != tiers[current].name
  {
    Before(NamesOf(tiers), tiers[current].name)
  }

  ghost function NamesOf(tiers: seq<Tier>): (names: seq<string>)
    ensures |names| == |tiers| && forall i :: 0 <= i < |tiers| ==> names[i] == tiers[i].name
  {
    seq(|tiers|, i requires 0 <= i < |tiers| => tiers[i].name)
  }
}
