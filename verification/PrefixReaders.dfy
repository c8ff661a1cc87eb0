/** Readers of the prefix cache step by step. A `Get` looks for its block under the lock, lets go of it, and
    takes it again to remove the block or to move it back to the GPU: by then the block may have been deleted
    or replaced. Blocks are objects here: whoever found one still has it, flags and all, when no map does. */
module PrefixReaders {
  import opened Common
  import opened LossyMaps
  import opened PrefixStoreSpec
  import Runs = PrefixStoreRuns

  /** `inSwap` are the two flags of a block, of which one is always set. No step but a move changes them. */
  datatype Obj<K> = Obj(key: K, block: Block, inSwap: bool)

  /** A `Get` has found its block, or has taken a reference to it, or has moved it and is about to return. */
  datatype Phase = Looking | Holding | Served

  datatype Reader = Reader(id: nat, phase: Phase)

  datatype State<!K> = State(gpu: map<K, nat>, swap: map<K, nat>, objs: map<nat, Obj<K>>,
                             used: int, swapUsed: int, entries: int, readers: map<nat, Reader>)

  /** The first five are done in one piece, the turns of a sweep and of an eviction each by itself. */
  datatype Step<K> =
    | Set(key: K, value: seq<byte>, ttl: int, now: int, id: nat)
    | Delete(key: K)
    | Clear
    | Expire(key: K, now: int)
    | Evict(key: K)
    | Look(t: nat, key: K)
    | Drop(t: nat, now: int)
    | Pin(t: nat, now: int)
    | Finish(t: nat, now: int)
    | Release(t: nat)

  function Initial<K(==)>(): State<K> {
    State(map[], map[], map[], 0, 0, 0, map[])
  }

  // ---------------------------------------------------------------- the store that a state stands for

  ghost function Blocks<K>(m: map<K, nat>, objs: map<nat, Obj<K>>): map<K, Block> {
    map k | k in m && m[k] in objs :: objs[m[k]].block
  }

  ghost function View<K>(s: State<K>): Store<K> {
    Store(Blocks(s.gpu, s.objs), Blocks(s.swap, s.objs), s.used, s.swapUsed, s.entries)
  }

  ghost predicate Filed<K>(m: map<K, nat>, objs: map<nat, Obj<K>>, inSwap: bool) {
    forall k :: k in m ==> m[k] in objs && objs[m[k]].key == k && objs[m[k]].inSwap == inSwap
  }

  /** A block that a map has is flagged for that map, and no key is in both. */
  ghost predicate WellFormed<K>(s: State<K>) {
    && Filed(s.gpu, s.objs, false) && Filed(s.swap, s.objs, true)
    && (forall k :: k in s.gpu ==> k !in s.swap)
    && forall t :: t in s.readers ==> s.readers[t].id in s.objs
  }

  // ---------------------------------------------------------------- the steps

  /** Reader `t` is in this phase, with a block. */
  predicate Is<K(==)>(s: State<K>, t: nat, phase: Phase) {
    t in s.readers && s.readers[t].phase == phase && s.readers[t].id in s.objs
  }

  function ObjOf<K(==)>(s: State<K>, t: nat): Obj<K>
    requires t in s.readers && s.readers[t].id in s.objs
  {
    s.objs[s.readers[t].id]
  }

  /** The GPU has a block without references. */
  predicate Unpinned<K(==)>(s: State<K>, key: K) {
    key in s.gpu && s.gpu[key] in s.objs && s.objs[s.gpu[key]].block.refs == 0
  }

  /** A `Finish` that needs room waits for ever for the lock that it holds. An eviction takes unpinned blocks
      while the target is missed; which of them comes first makes no difference here. */
  ghost predicate Enabled<K>(cfg: Config, s: State<K>, step: Step<K>) {
    match step
    case Set(_, _, _, _, id) => id !in s.objs
    case Delete(_) => true
    case Clear => true
    case Expire(key, now) => Unpinned(s, key) && Expired(s.objs[s.gpu[key]].block, now)
    case Evict(key) => Unpinned(s, key) && s.used > Target(cfg)
    case Look(t, key) => t !in s.readers && (key in s.gpu || key in s.swap)
    case Drop(t, now) => Is(s, t, Looking) && Expired(ObjOf(s, t).block, now)
    case Pin(t, now) => Is(s, t, Looking) && !Expired(ObjOf(s, t).block, now)
    case Finish(t, _) =>
      && Is(s, t, Holding)
      && (ObjOf(s, t).inSwap ==> s.used + |ObjOf(s, t).block.kv| <= cfg.maxSize)
    case Release(t) => Is(s, t, Served)
  }

  /** The block goes out of the map that its flags name, whatever that has under the key. */
  function RemoveObj<K(==)>(s: State<K>, o: Obj<K>): State<K> {
    if o.inSwap then
      s.(swap := s.swap - {o.key}, swapUsed := s.swapUsed - |o.block.kv|, entries := s.entries - 1)
    else
      s.(gpu := s.gpu - {o.key}, used := s.used - |o.block.kv|, entries := s.entries - 1)
  }

  function RemoveAt<K(==)>(s: State<K>, key: K): State<K> {
    if key in s.gpu && s.gpu[key] in s.objs then RemoveObj(s, s.objs[s.gpu[key]])
    else if key in s.swap && s.swap[key] in s.objs then RemoveObj(s, s.objs[s.swap[key]])
    else s
  }

  function AddObj<K(==)>(s: State<K>, id: nat, o: Obj<K>): State<K> {
    s.(gpu := s.gpu[o.key := id], objs := s.objs[id := o], used := s.used + |o.block.kv|, entries := s.entries + 1)
  }

  function ToSwap<K(==)>(s: State<K>, key: K, id: nat, o: Obj<K>): State<K> {
    s.(gpu := s.gpu - {key}, swap := s.swap[key := id], objs := s.objs[id := o.(inSwap := true)],
       used := s.used - |o.block.kv|, swapUsed := s.swapUsed + |o.block.kv|)
  }

  function ToGpu<K(==)>(s: State<K>, id: nat, o: Obj<K>): State<K> {
    s.(gpu := s.gpu[o.key := id], swap := s.swap - {o.key}, objs := s.objs[id := o.(inSwap := false)],
       used := s.used + |o.block.kv|, swapUsed := s.swapUsed - |o.block.kv|)
  }

  function WithBlock<K(==)>(s: State<K>, id: nat, b: Block): State<K>
    requires id in s.objs
  {
    s.(objs := s.objs[id := s.objs[id].(block := b)])
  }

  function Held(b: Block): Block {
    b.(refs := b.refs + 1)
  }

  function Freed(b: Block): Block {
    b.(refs := if b.refs > 0 then b.refs - 1 else 0)
  }

  function Stamped<K>(o: Obj<K>, now: int): Obj<K> {
    o.(block := o.block.(accessedAt := now))
  }

  function Next<K(==)>(cfg: Config, s: State<K>, step: Step<K>): State<K> {
    match step
    case Set(key, value, ttl, now, id) => AddObj(RemoveAt(s, key), id, Obj(key, NewBlock(cfg, value, ttl, now), false))
    case Delete(key) => RemoveAt(s, key)
    case Clear => State(map[], map[], s.objs, 0, 0, 0, s.readers)
    case Expire(key, _) => RemoveAt(s, key)
    case Evict(key) =>
      if key in s.gpu && s.gpu[key] in s.objs && cfg.enableSwap && s.swapUsed < cfg.swapSize then
        ToSwap(s, key, s.gpu[key], s.objs[s.gpu[key]])
      else RemoveAt(s, key)
    case Look(t, key) =>
      if key in s.gpu then s.(readers := s.readers[t := Reader(s.gpu[key], Looking)])
      else if key in s.swap then s.(readers := s.readers[t := Reader(s.swap[key], Looking)])
      else s
    case Drop(t, _) => if Is(s, t, Looking) then RemoveObj(s, ObjOf(s, t)).(readers := s.readers - {t}) else s
    case Pin(t, _) =>
      if Is(s, t, Looking) then
        var id, b := s.readers[t].id, ObjOf(s, t).block;
        WithBlock(s, id, Held(b)).(readers := s.readers[t := Reader(id, Holding)])
      else s
    case Finish(t, now) =>
      if Is(s, t, Holding) then
        var id, o := s.readers[t].id, ObjOf(s, t);
        (if o.inSwap then ToGpu(s, id, Stamped(o, now)) else WithBlock(s, id, Stamped(o, now).block))
          .(readers := s.readers[t := Reader(id, Served)])
      else s
    case Release(t) =>
      if Is(s, t, Served) then
        var id, b := s.readers[t].id, ObjOf(s, t).block;
        WithBlock(s, id, Freed(b)).(readers := s.readers - {t})
      else s
  }

  ghost predicate StepAt<K>(cfg: Config, states: seq<State<K>>, steps: seq<Step<K>>, i: nat)
    requires i < |steps| < |states|
  {
    Enabled(cfg, states[i], steps[i]) && states[i + 1] == Next(cfg, states[i], steps[i])
  }

  ghost predicate IsRun<K>(cfg: Config, states: seq<State<K>>, steps: seq<Step<K>>) {
    && |states| == |steps| + 1 && states[0] == Initial()
    && forall i {:trigger StepAt(cfg, states, steps, i)} :: 0 <= i < |steps| ==> StepAt(cfg, states, steps, i)
  }

  lemma RemoveObjStays<K>(s: State<K>, o: Obj<K>)
    requires WellFormed(s)
    ensures WellFormed(RemoveObj(s, o))
  {
  }

  lemma ToSwapStays<K>(s: State<K>, key: K, id: nat, o: Obj<K>)
    requires WellFormed(s) && key in s.gpu && s.gpu[key] == id && o.key == key
    ensures WellFormed(ToSwap(s, key, id, o))
  {
    assert forall k :: k in s.gpu && s.gpu[k] == id ==> k == key;
  }

  lemma ToGpuStays<K>(s: State<K>, id: nat, o: Obj<K>)
    requires WellFormed(s) && id in s.objs && s.objs[id].key == o.key && s.objs[id].inSwap
    ensures WellFormed(ToGpu(s, id, o))
  {
    assert forall k :: k in s.swap && s.swap[k] == id ==> k == o.key;
  }

  lemma WithBlockStays<K>(s: State<K>, id: nat, b: Block)
    requires WellFormed(s) && id in s.objs
    ensures WellFormed(WithBlock(s, id, b))
  {
  }

  lemma RemoveAtStays<K>(s: State<K>, key: K)
    requires WellFormed(s)
    ensures WellFormed(RemoveAt(s, key)) && RemoveAt(s, key).objs == s.objs
    ensures key !in RemoveAt(s, key).gpu && key !in RemoveAt(s, key).swap
  {
  }

  lemma AddObjStays<K>(s: State<K>, id: nat, o: Obj<K>)
    requires WellFormed(s) && id !in s.objs && o.key !in s.swap && !o.inSwap
    ensures WellFormed(AddObj(s, id, o))
  {
  }

  /** Whatever comes in between, a reader leaves the maps and the flags in agreement. */
  lemma StepStaysWellFormed<K>(cfg: Config, s: State<K>, step: Step<K>)
    requires WellFormed(s) && Enabled(cfg, s, step)
    ensures WellFormed(Next(cfg, s, step))
  {
    match step {
      case Set(key, value, ttl, now, id) =>
        RemoveAtStays(s, key);
        AddObjStays(RemoveAt(s, key), id, Obj(key, NewBlock(cfg, value, ttl, now), false));
      case Evict(key) => ToSwapStays(s, key, s.gpu[key], s.objs[s.gpu[key]]);
      case Drop(t, _) => RemoveObjStays(s, ObjOf(s, t));
      case Pin(t, _) => WithBlockStays(s, s.readers[t].id, Held(ObjOf(s, t).block));
      case Finish(t, now) =>
        var o := ObjOf(s, t);
        if o.inSwap {
          ToGpuStays(s, s.readers[t].id, Stamped(o, now));
        }
      case Release(t) => WithBlockStays(s, s.readers[t].id, Freed(ObjOf(s, t).block));
      case _ =>
    }
  }

  lemma {:induction false} RunIsWellFormed<K>(cfg: Config, states: seq<State<K>>, steps: seq<Step<K>>, n: nat)
    requires IsRun(cfg, states, steps) && n < |states|
    ensures WellFormed(states[n])
  {
    if n > 0 {
      RunIsWellFormed(cfg, states, steps, n - 1);
      assert StepAt(cfg, states, steps, n - 1);
      StepStaysWellFormed(cfg, states[n - 1], steps[n - 1]);
    }
  }

  // ---------------------------------------------------------------- the steps on the store

  lemma BlocksWithout<K>(m: map<K, nat>, objs: map<nat, Obj<K>>, key: K)
    ensures Blocks(m - {key}, objs) == Blocks(m, objs) - {key}
  {
  }

  lemma BlocksWith<K>(m: map<K, nat>, objs: map<nat, Obj<K>>, key: K, id: nat, o: Obj<K>)
    requires forall k :: k in m && k != key ==> m[k] != id
    ensures Blocks(m[key := id], objs[id := o]) == Blocks(m, objs)[key := o.block]
  {
  }

  lemma BlocksElsewhere<K>(m: map<K, nat>, objs: map<nat, Obj<K>>, id: nat, o: Obj<K>)
    requires forall k :: k in m ==> m[k] != id
    ensures Blocks(m, objs[id := o]) == Blocks(m, objs)
  {
  }

  /** What a `Drop` does to the store. */
  ghost function Dropped<K>(v: Store<K>, o: Obj<K>): Store<K> {
    if o.inSwap then v.(swap := v.swap - {o.key}, swapUsed := v.swapUsed - |o.block.kv|, entries := v.entries - 1)
    else v.(gpu := v.gpu - {o.key}, used := v.used - |o.block.kv|, entries := v.entries - 1)
  }

  /** What a `Finish` does to the store that moves its block back. */
  ghost function MovedBack<K>(v: Store<K>, key: K, b: Block): Store<K> {
    Store(v.gpu[key := b], v.swap - {key}, v.used + |b.kv|, v.swapUsed - |b.kv|, v.entries)
  }

  /** Only stamps and references differ. */
  ghost predicate Restamped<K>(v: Store<K>, v': Store<K>) {
    && v'.gpu.Keys == v.gpu.Keys && v'.swap.Keys == v.swap.Keys
    && (forall k :: k in v.gpu ==> v'.gpu[k].kv == v.gpu[k].kv)
    && (forall k :: k in v.swap ==> v'.swap[k].kv == v.swap[k].kv)
    && v'.used == v.used && v'.swapUsed == v.swapUsed && v'.entries == v.entries
  }

  lemma RemoveObjView<K>(s: State<K>, o: Obj<K>)
    ensures View(RemoveObj(s, o)) == Dropped(View(s), o)
  {
    BlocksWithout(s.gpu, s.objs, o.key);
    BlocksWithout(s.swap, s.objs, o.key);
  }

  lemma RemoveAtView<K>(s: State<K>, key: K)
    requires WellFormed(s)
    ensures View(RemoveAt(s, key)) == RemoveIfPresent(View(s), key)
  {
    var v := View(s);
    if key in s.gpu {
      RemoveObjView(s, s.objs[s.gpu[key]]);
      assert v.swap - {key} == v.swap;
    } else if key in s.swap {
      RemoveObjView(s, s.objs[s.swap[key]]);
      assert v.gpu - {key} == v.gpu;
    }
  }

  lemma AddObjView<K>(s: State<K>, id: nat, o: Obj<K>)
    requires WellFormed(s) && id !in s.objs
    ensures View(AddObj(s, id, o)) == AddNew(View(s), o.key, o.block)
  {
    BlocksWith(s.gpu, s.objs, o.key, id, o);
    BlocksElsewhere(s.swap, s.objs, id, o);
  }

  lemma SetView<K>(cfg: Config, s: State<K>, key: K, value: seq<byte>, ttl: int, now: int, id: nat)
    requires WellFormed(s) && id !in s.objs
    ensures View(Next(cfg, s, Set(key, value, ttl, now, id))) == Put(cfg, View(s), key, value, ttl, now)
  {
    RemoveAtView(s, key);
    RemoveAtStays(s, key);
    AddObjView(RemoveAt(s, key), id, Obj(key, NewBlock(cfg, value, ttl, now), false));
  }

  lemma EvictView<K>(cfg: Config, s: State<K>, key: K)
    requires WellFormed(s) && key in s.gpu
    ensures View(Next(cfg, s, Evict(key))) == EvictOne(cfg, View(s), key)
  {
    RemoveAtView(s, key);
    var id := s.gpu[key];
    var o := s.objs[id].(inSwap := true);
    BlocksWithout(s.gpu, s.objs[id := o], key);
    BlocksWith(s.swap, s.objs, key, id, o);
    assert Blocks(s.gpu, s.objs[id := o]) == Blocks(s.gpu, s.objs);
  }

  lemma ToGpuView<K>(s: State<K>, id: nat, o: Obj<K>)
    requires WellFormed(s) && id in s.objs && s.objs[id].key == o.key && s.objs[id].inSwap
    ensures View(ToGpu(s, id, o)) == MovedBack(View(s), o.key, o.block)
  {
    BlocksWith(s.gpu, s.objs, o.key, id, o.(inSwap := false));
    BlocksWithout(s.swap, s.objs, o.key);
    assert forall k :: k in s.swap && s.swap[k] == id ==> k == o.key;
    BlocksElsewhere(s.swap - {o.key}, s.objs, id, o.(inSwap := false));
  }

  lemma BlocksRestamped<K>(m: map<K, nat>, objs: map<nat, Obj<K>>, id: nat, o: Obj<K>)
    requires id in objs && o.block.kv == objs[id].block.kv
    ensures var before, after := Blocks(m, objs), Blocks(m, objs[id := o]);
            after.Keys == before.Keys && forall k :: k in before ==> after[k].kv == before[k].kv
  {
  }

  lemma WithBlockView<K>(s: State<K>, id: nat, b: Block)
    requires id in s.objs && b.kv == s.objs[id].block.kv
    ensures Restamped(View(s), View(WithBlock(s, id, b)))
  {
    BlocksRestamped(s.gpu, s.objs, id, s.objs[id].(block := b));
    BlocksRestamped(s.swap, s.objs, id, s.objs[id].(block := b));
  }

  /** How a step shows on the store: as an atomic operation, or one of the pieces that a `Get` is made of. */
  ghost predicate Shows<K>(cfg: Config, s: State<K>, step: Step<K>, v: Store<K>, v': Store<K>) {
    match step
    case Set(key, value, ttl, now, _) => v' == Put(cfg, v, key, value, ttl, now)
    case Delete(key) => v' == RemoveIfPresent(v, key)
    case Clear => v' == EmptyStore()
    case Expire(key, now) => (key in v.gpu || key in v.swap) && v' == Remove(v, key)
    case Evict(key) => key in v.gpu && v' == EvictOne(cfg, v, key)
    case Look(_, _) => v' == v
    case Drop(t, _) => Is(s, t, Looking) && v' == Dropped(v, ObjOf(s, t))
    case Pin(_, _) => Restamped(v, v')
    case Finish(t, now) =>
      && Is(s, t, Holding)
      && var o := ObjOf(s, t);
         if o.inSwap then v' == MovedBack(v, o.key, Stamped(o, now).block) else Restamped(v, v')
    case Release(_) => Restamped(v, v')
  }

  lemma StepShows<K>(cfg: Config, s: State<K>, step: Step<K>)
    requires WellFormed(s) && Enabled(cfg, s, step)
    ensures Shows(cfg, s, step, View(s), View(Next(cfg, s, step)))
  {
    match step {
      case Set(key, value, ttl, now, id) => SetView(cfg, s, key, value, ttl, now, id);
      case Delete(key) => RemoveAtView(s, key);
      case Clear =>
      case Expire(key, _) => RemoveAtView(s, key);
      case Evict(key) => EvictView(cfg, s, key);
      case Look(_, _) =>
      case Drop(t, _) => RemoveObjView(s, ObjOf(s, t));
      case Pin(t, _) => WithBlockView(s, s.readers[t].id, Held(ObjOf(s, t).block));
      case Finish(t, now) =>
        var id, o := s.readers[t].id, ObjOf(s, t);
        if o.inSwap {
          ToGpuView(s, id, Stamped(o, now));
        } else {
          WithBlockView(s, id, Stamped(o, now).block);
        }
      case Release(t) => WithBlockView(s, s.readers[t].id, Freed(ObjOf(s, t).block));
    }
  }

  // ---------------------------------------------------------------- the latest values

  function EffectOf<K>(step: Step<K>): Effect<K> {
    match step
    case Set(key, value, _, _, _) => Stored(key, value)
    case Delete(key) => Removed(key)
    case Clear => Cleared
    case _ => Kept
  }

  /** What a map would hold before step `n`. */
  function LatestAt<K(==)>(steps: seq<Step<K>>, n: nat): map<K, seq<byte>>
    requires n <= |steps|
  {
    if n == 0 then map[] else Update(LatestAt(steps, n - 1), EffectOf(steps[n - 1]))
  }

  ghost predicate IsLatest<K>(key: K, value: seq<byte>, latest: map<K, seq<byte>>) {
    key in latest && latest[key] == value
  }

  /** A reader puts a block back that is flagged for swap, and whose value is not the latest: it was deleted, or
      replaced by another, after the reader had found it. */
  ghost predicate Revives<K>(s: State<K>, step: Step<K>, latest: map<K, seq<byte>>) {
    && step.Finish? && Is(s, step.t, Holding) && ObjOf(s, step.t).inSwap
    && !IsLatest(ObjOf(s, step.t).key, ObjOf(s, step.t).block.kv, latest)
  }

  lemma MovedBackAgreesIff<K>(v: Store<K>, key: K, b: Block, latest: map<K, seq<byte>>)
    requires Runs.Agrees(v, latest)
    ensures Runs.Agrees(MovedBack(v, key, b), latest) <==> IsLatest(key, b.kv, latest)
  {
    assert key in MovedBack(v, key, b).gpu;
  }

  lemma ShownAgreesIff<K>(cfg: Config, s: State<K>, step: Step<K>, v: Store<K>, v': Store<K>,
                          latest: map<K, seq<byte>>)
    requires Shows(cfg, s, step, v, v') && Runs.Agrees(v, latest)
    ensures Runs.Agrees(v', Update(latest, EffectOf(step))) <==> !Revives(s, step, latest)
  {
    if step.Finish? && ObjOf(s, step.t).inSwap {
      MovedBackAgreesIff(v, ObjOf(s, step.t).key, Stamped(ObjOf(s, step.t), step.now).block, latest);
    }
  }

  /** From a store of latest values a step leads to one exactly if it revives no block. */
  lemma StepAgreesIff<K>(cfg: Config, s: State<K>, step: Step<K>, latest: map<K, seq<byte>>)
    requires WellFormed(s) && Enabled(cfg, s, step) && Runs.Agrees(View(s), latest)
    ensures Runs.Agrees(View(Next(cfg, s, step)), Update(latest, EffectOf(step))) <==> !Revives(s, step, latest)
  {
    StepShows(cfg, s, step);
    ShownAgreesIff(cfg, s, step, View(s), View(Next(cfg, s, step)), latest);
  }

  ghost predicate AgreesAt<K>(states: seq<State<K>>, steps: seq<Step<K>>, n: nat) {
    n < |states| && n <= |steps| && Runs.Agrees(View(states[n]), LatestAt(steps, n))
  }

  ghost predicate RevivesAt<K>(states: seq<State<K>>, steps: seq<Step<K>>, n: nat) {
    n < |states| && n < |steps| && Revives(states[n], steps[n], LatestAt(steps, n))
  }

  lemma NextAgreesIff<K>(cfg: Config, states: seq<State<K>>, steps: seq<Step<K>>, n: nat)
    requires IsRun(cfg, states, steps) && n < |steps| && AgreesAt(states, steps, n)
    ensures AgreesAt(states, steps, n + 1) <==> !RevivesAt(states, steps, n)
  {
    RunIsWellFormed(cfg, states, steps, n);
    assert StepAt(cfg, states, steps, n);
    StepAgreesIff(cfg, states[n], steps[n], LatestAt(steps, n));
  }

  lemma StartAgrees<K>(cfg: Config, states: seq<State<K>>, steps: seq<Step<K>>)
    requires IsRun(cfg, states, steps)
    ensures AgreesAt(states, steps, 0)
  {
  }

  ghost predicate AlwaysAgrees<K>(states: seq<State<K>>, steps: seq<Step<K>>, n: nat) {
    forall i: nat {:trigger AgreesAt(states, steps, i)} :: i <= n ==> AgreesAt(states, steps, i)
  }

  ghost predicate NeverRevives<K>(states: seq<State<K>>, steps: seq<Step<K>>, n: nat) {
    forall m: nat {:trigger RevivesAt(states, steps, m)} :: m < n ==> !RevivesAt(states, steps, m)
  }

  lemma AgreesOnIff<K>(cfg: Config, states: seq<State<K>>, steps: seq<Step<K>>, n: nat)
    requires IsRun(cfg, states, steps) && n < |steps|
    requires AlwaysAgrees(states, steps, n) <==> NeverRevives(states, steps, n)
    ensures AlwaysAgrees(states, steps, n + 1) <==> NeverRevives(states, steps, n + 1)
  {
    if AlwaysAgrees(states, steps, n) {
      assert AgreesAt(states, steps, n);
      NextAgreesIff(cfg, states, steps, n);
    }
  }

  /** Every block is the latest one set under its key, at every moment up to `n`, if and only if no reader
      revives one before. */
  lemma {:induction false} RunAgreesIff<K>(cfg: Config, states: seq<State<K>>, steps: seq<Step<K>>, n: nat)
    requires IsRun(cfg, states, steps) && n < |states|
    ensures AlwaysAgrees(states, steps, n) <==> NeverRevives(states, steps, n)
  {
    if n == 0 {
      StartAgrees(cfg, states, steps);
    } else {
      RunAgreesIff(cfg, states, steps, n - 1);
      AgreesOnIff(cfg, states, steps, n - 1);
    }
  }

  ghost predicate KeepsValue<K>(s: State<K>, s': State<K>, id: nat) {
    id in s.objs ==> id in s'.objs && s'.objs[id].key == s.objs[id].key && s'.objs[id].block.kv == s.objs[id].block.kv
  }

  lemma StepKeepsValues<K>(cfg: Config, s: State<K>, step: Step<K>, id: nat)
    requires Enabled(cfg, s, step)
    ensures KeepsValue(s, Next(cfg, s, step), id)
  {
  }

  lemma KeepsOn<K>(cfg: Config, states: seq<State<K>>, steps: seq<Step<K>>, m: nat, n: nat, id: nat)
    requires IsRun(cfg, states, steps) && m < |states| && n < |steps| && KeepsValue(states[m], states[n], id)
    ensures KeepsValue(states[m], states[n + 1], id)
  {
    assert StepAt(cfg, states, steps, n);
    StepKeepsValues(cfg, states[n], steps[n], id);
  }

  /** No step changes what a block holds, whoever still has it. */
  lemma {:induction false} BlocksKeepTheirValues<K>(cfg: Config, states: seq<State<K>>, steps: seq<Step<K>>,
                                                    m: nat, n: nat, id: nat)
    requires IsRun(cfg, states, steps) && m <= n < |states|
    ensures KeepsValue(states[m], states[n], id)
  {
    if m < n {
      BlocksKeepTheirValues(cfg, states, steps, m, n - 1, id);
      KeepsOn(cfg, states, steps, m, n - 1, id);
    }
  }

  function IdAt<K(==)>(s: State<K>, key: K): Option<nat> {
    if key in s.gpu then Some(s.gpu[key]) else if key in s.swap then Some(s.swap[key]) else None
  }

  /** `t` has not returned between `m` and `n`. */
  ghost predicate Underway<K>(steps: seq<Step<K>>, t: nat, m: nat, n: nat) {
    forall i :: m < i < n && i < |steps| ==> steps[i] != Release(t) && !(steps[i].Drop? && steps[i].t == t)
  }

  lemma ReaderKeepsBlock<K>(cfg: Config, s: State<K>, step: Step<K>, t: nat)
    requires Enabled(cfg, s, step) && t in s.readers && step != Release(t) && !(step.Drop? && step.t == t)
    ensures t in Next(cfg, s, step).readers && Next(cfg, s, step).readers[t].id == s.readers[t].id
  {
  }

  lemma {:induction false} ReaderHasFound<K>(cfg: Config, states: seq<State<K>>, steps: seq<Step<K>>, m: nat, n: nat,
                                             t: nat, key: K)
    requires IsRun(cfg, states, steps) && m < n < |states| && steps[m] == Look(t, key) && Underway(steps, t, m, n)
    ensures t in states[n].readers && IdAt(states[m], key) == Some(states[n].readers[t].id)
  {
    assert StepAt(cfg, states, steps, n - 1);
    if m + 1 < n {
      ReaderHasFound(cfg, states, steps, m, n - 1, t, key);
      ReaderKeepsBlock(cfg, states[n - 1], steps[n - 1], t);
    }
  }

  /** What a `Get` answers was the latest value when it looked, whatever has come in between. */
  lemma AnswerWasLatest<K>(cfg: Config, states: seq<State<K>>, steps: seq<Step<K>>, m: nat, n: nat, t: nat, key: K)
    requires IsRun(cfg, states, steps) && m < n < |states| && steps[m] == Look(t, key) && Underway(steps, t, m, n)
    requires AgreesAt(states, steps, m)
    ensures t in states[n].readers && states[n].readers[t].id in states[n].objs
    ensures IsLatest(key, ObjOf(states[n], t).block.kv, LatestAt(steps, m))
  {
    ReaderHasFound(cfg, states, steps, m, n, t, key);
    RunIsWellFormed(cfg, states, steps, m);
    BlocksKeepTheirValues(cfg, states, steps, m, n, states[n].readers[t].id);
  }

  /** The latest value of a key is that of the last `Set`, with no `Delete` of it and no `Clear` since. */
  lemma {:induction false} LatestWasSet<K>(steps: seq<Step<K>>, n: nat, key: K) returns (i: nat)
    requires n <= |steps| && key in LatestAt(steps, n)
    ensures i < n && steps[i].Set? && steps[i].key == key && steps[i].value == LatestAt(steps, n)[key]
    ensures forall j :: i < j < n ==>
              !steps[j].Clear? && steps[j] != Delete(key) && !(steps[j].Set? && steps[j].key == key)
  {
    if steps[n - 1].Set? && steps[n - 1].key == key {
      i := n - 1;
    } else {
      i := LatestWasSet(steps, n - 1, key);
    }
  }

  // ---------------------------------------------------------------- references

  /** The readers that have a reference to block `id`. */
  ghost function Holders<K>(s: State<K>, id: nat): set<nat> {
    set t | t in s.readers && s.readers[t].id == id && s.readers[t].phase != Looking
  }

  ghost predicate CountsHolders<K>(s: State<K>, id: nat) {
    id in s.objs ==> s.objs[id].block.refs == |Holders(s, id)|
  }

  predicate TakesOrGives<K>(step: Step<K>) {
    step.Pin? || step.Release?
  }

  lemma OthersKeepHolders<K>(cfg: Config, s: State<K>, step: Step<K>, id: nat)
    requires Enabled(cfg, s, step) && !TakesOrGives(step)
    ensures Holders(Next(cfg, s, step), id) == Holders(s, id)
  {
  }

  /** Without a reference taken or given back, a count stays as it was, and that of a new block is zero. */
  lemma OthersKeepRefs<K>(cfg: Config, s: State<K>, step: Step<K>, id: nat)
    requires Enabled(cfg, s, step) && !TakesOrGives(step) && id in Next(cfg, s, step).objs
    ensures Next(cfg, s, step).objs[id].block.refs == if id in s.objs then s.objs[id].block.refs else 0
  {
  }

  /** `Pin` takes one reference, on the block of its reader. */
  lemma PinCounts<K>(cfg: Config, s: State<K>, t: nat, now: int, id: nat)
    requires Enabled(cfg, s, Pin(t, now)) && CountsHolders(s, id)
    ensures CountsHolders(Next(cfg, s, Pin(t, now)), id)
  {
    var s' := Next(cfg, s, Pin(t, now));
    assert Holders(s', id) == if s.readers[t].id == id then Holders(s, id) + {t} else Holders(s, id);
  }

  /** `Release` gives one back. */
  lemma ReleaseCounts<K>(cfg: Config, s: State<K>, t: nat, id: nat)
    requires Enabled(cfg, s, Release(t)) && CountsHolders(s, id)
    ensures CountsHolders(Next(cfg, s, Release(t)), id)
  {
    var s' := Next(cfg, s, Release(t));
    assert Holders(s', id) == if s.readers[t].id == id then Holders(s, id) - {t} else Holders(s, id);
    assert s.readers[t].id == id ==> t in Holders(s, id);
  }

  /** A block counts the readers that have a reference to it, and goes on to. */
  lemma StepCountsHolders<K>(cfg: Config, s: State<K>, step: Step<K>, id: nat)
    requires WellFormed(s) && Enabled(cfg, s, step) && CountsHolders(s, id)
    ensures CountsHolders(Next(cfg, s, step), id)
  {
    if TakesOrGives(step) {
      match step {
        case Pin(t, now) => PinCounts(cfg, s, t, now, id);
        case Release(t) => ReleaseCounts(cfg, s, t, id);
        case _ =>
      }
    } else if id in Next(cfg, s, step).objs {
      OthersKeepHolders(cfg, s, step, id);
      OthersKeepRefs(cfg, s, step, id);
      assert id !in s.objs ==> Holders(s, id) == {};
    }
  }

  /** In every run the reference count of every block is the number of readers that are holding it. */
  lemma {:induction false} RunCountsHolders<K>(cfg: Config, states: seq<State<K>>, steps: seq<Step<K>>, n: nat, id: nat)
    requires IsRun(cfg, states, steps) && n < |states|
    ensures CountsHolders(states[n], id)
  {
    if n > 0 {
      RunCountsHolders(cfg, states, steps, n - 1, id);
      RunIsWellFormed(cfg, states, steps, n - 1);
      assert StepAt(cfg, states, steps, n - 1);
      StepCountsHolders(cfg, states[n - 1], steps[n - 1], id);
    }
  }

  /** So no sweep and no eviction ever takes a block that a reader is holding. */
  lemma HeldIsNotTaken<K>(cfg: Config, states: seq<State<K>>, steps: seq<Step<K>>, n: nat, key: K, t: nat)
    requires IsRun(cfg, states, steps) && n < |steps|
    requires steps[n] == Evict(key) || (steps[n].Expire? && steps[n].key == key)
    requires t in states[n].readers && states[n].readers[t].phase != Looking
    ensures key in states[n].gpu && states[n].gpu[key] != states[n].readers[t].id
  {
    var s := states[n];
    assert StepAt(cfg, states, steps, n);
    var id := s.gpu[key];
    RunCountsHolders(cfg, states, steps, n, id);
    assert t !in Holders(s, id);
  }

  /** A reader that is done with its block has stamped it, and it is on the GPU if it was in swap; nothing else
      about the block changes, and no other block does. */
  lemma FinishStamps<K>(cfg: Config, s: State<K>, t: nat, now: int)
    requires Enabled(cfg, s, Finish(t, now))
    ensures var s', id, o := Next(cfg, s, Finish(t, now)), s.readers[t].id, ObjOf(s, t);
            && id in s'.objs && s'.objs[id] == Obj(o.key, o.block.(accessedAt := now), false)
            && (o.inSwap ==> o.key in s'.gpu && s'.gpu[o.key] == id && o.key !in s'.swap)
            && (!o.inSwap ==> s'.gpu == s.gpu && s'.swap == s.swap)
            && s'.objs - {id} == s.objs - {id}
  {
  }

  // ---------------------------------------------------------------- the counters

  datatype Counts = Counts(used: int, swapUsed: int, entries: int)

  function Plus(a: Counts, b: Counts): Counts {
    Counts(a.used + b.used, a.swapUsed + b.swapUsed, a.entries + b.entries)
  }

  const NONE := Counts(0, 0, 0)

  /** What the counters show beyond what is there. */
  ghost function Surplus<K>(v: Store<K>): Counts {
    Counts(v.used - Bytes(v.gpu), v.swapUsed - Bytes(v.swap), v.entries - |v.gpu.Keys| - |v.swap.Keys|)
  }

  function One(b: bool): int {
    if b then 1 else 0
  }

  ghost function DropExcess<K>(v: Store<K>, o: Obj<K>): Counts {
    if o.inSwap then Counts(0, SizeAt(v.swap, o.key) - |o.block.kv|, One(o.key in v.swap) - 1)
    else Counts(SizeAt(v.gpu, o.key) - |o.block.kv|, 0, One(o.key in v.gpu) - 1)
  }

  ghost function MoveExcess<K>(v: Store<K>, key: K, b: Block): Counts {
    Counts(SizeAt(v.gpu, key), SizeAt(v.swap, key) - |b.kv|, One(key in v.gpu) + One(key in v.swap) - 1)
  }

  /** What a step of a reader adds to the counters beyond what it adds to the maps. */
  ghost function Excess<K>(s: State<K>, step: Step<K>, v: Store<K>): Counts {
    if step.Drop? && Is(s, step.t, Looking) then DropExcess(v, ObjOf(s, step.t))
    else if step.Finish? && Is(s, step.t, Holding) && ObjOf(s, step.t).inSwap then
      MoveExcess(v, ObjOf(s, step.t).key, ObjOf(s, step.t).block)
    else NONE
  }

  ghost predicate Grows<K>(v: Store<K>, v': Store<K>, excess: Counts) {
    Surplus(v') == Plus(Surplus(v), excess)
  }

  lemma RemovedGrows<K>(v: Store<K>, key: K)
    requires Disjoint(v)
    ensures Grows(v, RemoveIfPresent(v, key), NONE)
  {
    BytesWithout(v.gpu, key);
    BytesWithout(v.swap, key);
  }

  lemma PutGrows<K>(cfg: Config, v: Store<K>, key: K, value: seq<byte>, ttl: int, now: int)
    requires Disjoint(v)
    ensures Grows(v, Put(cfg, v, key, value, ttl, now), NONE)
  {
    RemovedGrows(v, key);
    BytesWith(RemoveIfPresent(v, key).gpu, key, NewBlock(cfg, value, ttl, now));
  }

  lemma EvictedGrows<K>(cfg: Config, v: Store<K>, key: K)
    requires Disjoint(v) && key in v.gpu
    ensures Grows(v, EvictOne(cfg, v, key), NONE)
  {
    RemovedGrows(v, key);
    BytesWithout(v.gpu, key);
    BytesWith(v.swap, key, v.gpu[key]);
  }

  lemma DroppedGrows<K>(v: Store<K>, o: Obj<K>)
    ensures Grows(v, Dropped(v, o), DropExcess(v, o))
  {
    BytesWithout(v.gpu, o.key);
    BytesWithout(v.swap, o.key);
  }

  lemma MovedBackGrows<K>(v: Store<K>, key: K, b: Block)
    ensures Grows(v, MovedBack(v, key, b), MoveExcess(v, key, b))
  {
    BytesWith(v.gpu, key, b);
    BytesWithout(v.swap, key);
  }

  lemma RestampedGrows<K>(v: Store<K>, v': Store<K>)
    requires Restamped(v, v')
    ensures Grows(v, v', NONE)
  {
    assert Sizes(v'.gpu) == Sizes(v.gpu) && Sizes(v'.swap) == Sizes(v.swap);
  }

  /** The counters follow the maps, except for what a reader adds in excess; `Clear` sets them right. */
  ghost predicate Follows<K>(s: State<K>, step: Step<K>, v: Store<K>, v': Store<K>) {
    if step.Clear? then v' == EmptyStore() else Grows(v, v', Excess(s, step, v))
  }

  predicate OfReader<K>(step: Step<K>) {
    step.Drop? || step.Pin? || step.Finish? || step.Release?
  }

  lemma AtomicGrows<K>(cfg: Config, s: State<K>, step: Step<K>, v: Store<K>, v': Store<K>)
    requires Disjoint(v) && Shows(cfg, s, step, v, v') && !step.Clear? && !OfReader(step)
    ensures Follows(s, step, v, v')
  {
    match step {
      case Set(key, value, ttl, now, _) => PutGrows(cfg, v, key, value, ttl, now);
      case Delete(key) => RemovedGrows(v, key);
      case Expire(key, _) => RemovedGrows(v, key);
      case Evict(key) => EvictedGrows(cfg, v, key);
      case Look(_, _) =>
    }
  }

  lemma ReaderGrows<K>(cfg: Config, s: State<K>, step: Step<K>, v: Store<K>, v': Store<K>)
    requires Shows(cfg, s, step, v, v') && OfReader(step)
    ensures Follows(s, step, v, v')
  {
    match step {
      case Drop(t, _) => DroppedGrows(v, ObjOf(s, t));
      case Finish(t, now) =>
        if ObjOf(s, t).inSwap {
          MovedBackGrows(v, ObjOf(s, t).key, Stamped(ObjOf(s, t), now).block);
        } else {
          RestampedGrows(v, v');
        }
      case _ => RestampedGrows(v, v');
    }
  }

  lemma EmptySurplus<K>(v: Store<K>)
    requires v.gpu.Keys == {} && v.swap.Keys == {} && v.used == v.swapUsed == v.entries == 0
    ensures Surplus(v) == NONE
  {
    BytesOfNone(v.gpu);
    BytesOfNone(v.swap);
  }

  lemma ShownCounts<K>(cfg: Config, s: State<K>, step: Step<K>, v: Store<K>, v': Store<K>)
    requires Disjoint(v) && Shows(cfg, s, step, v, v')
    ensures Follows(s, step, v, v')
  {
    if OfReader(step) {
      ReaderGrows(cfg, s, step, v, v');
    } else if !step.Clear? {
      AtomicGrows(cfg, s, step, v, v');
    }
  }

  /** Whatever the step, the counters follow the maps, except for what a reader adds in excess. */
  lemma StepCounts<K>(cfg: Config, s: State<K>, step: Step<K>)
    requires WellFormed(s) && Enabled(cfg, s, step)
    ensures Follows(s, step, View(s), View(Next(cfg, s, step)))
  {
    StepShows(cfg, s, step);
    ShownCounts(cfg, s, step, View(s), View(Next(cfg, s, step)));
  }

  /** What readers have added in excess since the last `Clear`, before step `n`. */
  ghost function Drift<K>(states: seq<State<K>>, steps: seq<Step<K>>, n: nat): Counts
    requires n <= |steps| < |states|
  {
    if n == 0 || steps[n - 1].Clear? then NONE
    else Plus(Drift(states, steps, n - 1), Excess(states[n - 1], steps[n - 1], View(states[n - 1])))
  }

  ghost predicate DriftedAt<K>(states: seq<State<K>>, steps: seq<Step<K>>, n: nat) {
    n <= |steps| < |states| && Surplus(View(states[n])) == Drift(states, steps, n)
  }

  lemma NextDrifts<K>(states: seq<State<K>>, steps: seq<Step<K>>, n: nat)
    requires n < |steps| < |states| && DriftedAt(states, steps, n)
    requires Follows(states[n], steps[n], View(states[n]), View(states[n + 1]))
    ensures DriftedAt(states, steps, n + 1)
  {
    if steps[n].Clear? {
      EmptySurplus(View(states[n + 1]));
    }
  }

  lemma DriftsOn<K>(cfg: Config, states: seq<State<K>>, steps: seq<Step<K>>, n: nat)
    requires IsRun(cfg, states, steps) && n < |steps| && DriftedAt(states, steps, n)
    ensures DriftedAt(states, steps, n + 1)
  {
    RunIsWellFormed(cfg, states, steps, n);
    assert StepAt(cfg, states, steps, n);
    StepCounts(cfg, states[n], steps[n]);
    NextDrifts(states, steps, n);
  }

  lemma InitialView<K>(s: State<K>)
    requires s == Initial()
    ensures View(s) == EmptyStore()
  {
    assert Blocks(s.gpu, s.objs) == map[] && Blocks(s.swap, s.objs) == map[];
  }

  lemma InitialSurplus<K>(s: State<K>)
    requires s == Initial()
    ensures Surplus(View(s)) == NONE
  {
    InitialView(s);
    EmptySurplus(View(s));
  }

  lemma StartDrifts<K>(cfg: Config, states: seq<State<K>>, steps: seq<Step<K>>)
    requires IsRun(cfg, states, steps)
    ensures DriftedAt(states, steps, 0)
  {
    InitialSurplus(states[0]);
  }

  lemma {:induction false} RunDrifts<K>(cfg: Config, states: seq<State<K>>, steps: seq<Step<K>>, n: nat)
    requires IsRun(cfg, states, steps) && n < |states|
    ensures DriftedAt(states, steps, n)
  {
    if n == 0 {
      StartDrifts(cfg, states, steps);
    } else {
      RunDrifts(cfg, states, steps, n - 1);
      DriftsOn(cfg, states, steps, n - 1);
    }
  }

  /** In every run the three counters are true exactly when what readers have added in excess comes to nothing. */
  lemma CountersAreTrueIff<K>(cfg: Config, states: seq<State<K>>, steps: seq<Step<K>>, n: nat)
    requires IsRun(cfg, states, steps) && n < |states|
    ensures Accurate(View(states[n])) <==> Drift(states, steps, n) == NONE
  {
    RunIsWellFormed(cfg, states, steps, n);
    RunDrifts(cfg, states, steps, n);
  }

  /** A reader adds nothing in excess exactly when the map that its block is flagged for has a block of that size
      under the key, or, where it moves the block back, the GPU has, and both are empty. */
  lemma NoExcessIff<K>(s: State<K>, step: Step<K>)
    requires WellFormed(s)
    requires || (step.Drop? && Is(s, step.t, Looking))
             || (step.Finish? && Is(s, step.t, Holding) && ObjOf(s, step.t).inSwap)
    ensures var o, v := ObjOf(s, step.t), View(s);
            var m := if o.inSwap then v.swap else v.gpu;
            var same := o.key in m && SizeAt(m, o.key) == |o.block.kv|;
            var empty := step.Finish? && o.key in v.gpu && SizeAt(v.gpu, o.key) == 0 && o.block.kv == [];
            Excess(s, step, v) == NONE <==> same || empty
  {
  }

  /** As long as the block that a reader has is still the one under its key, the reader does no harm. */
  lemma CurrentBlockIsHarmless<K>(s: State<K>, step: Step<K>, latest: map<K, seq<byte>>)
    requires WellFormed(s) && Runs.Agrees(View(s), latest)
    requires (step.Drop? && Is(s, step.t, Looking)) || (step.Finish? && Is(s, step.t, Holding))
    requires IdAt(s, ObjOf(s, step.t).key) == Some(s.readers[step.t].id)
    ensures !Revives(s, step, latest) && Excess(s, step, View(s)) == NONE
  {
    var key := ObjOf(s, step.t).key;
    assert key in View(s).gpu || key in View(s).swap;
  }

  // ---------------------------------------------------------------- a reader on its own

  /** What a `Get` leaves that finds block `id` and that nothing comes into. */
  ghost function Answered<K>(s: State<K>, id: nat, now: int): State<K>
    requires id in s.objs
  {
    var o := s.objs[id];
    if o.inSwap then ToGpu(s, id, Stamped(o, now)) else WithBlock(s, id, Stamped(o, now).block)
  }

  function Reading<K(==)>(s: State<K>, t: nat, id: nat, phase: Phase): State<K> {
    s.(readers := s.readers[t := Reader(id, phase)])
  }

  lemma PinOfGet<K>(cfg: Config, s: State<K>, t: nat, id: nat, now: int)
    requires id in s.objs
    ensures Next(cfg, Reading(s, t, id, Looking), Pin(t, now))
         == Reading(WithBlock(s, id, Held(s.objs[id].block)), t, id, Holding)
  {
    assert s.readers[t := Reader(id, Looking)][t := Reader(id, Holding)] == s.readers[t := Reader(id, Holding)];
  }

  lemma FinishOfGet<K>(cfg: Config, s: State<K>, t: nat, id: nat, now: int)
    requires id in s.objs
    ensures Next(cfg, Reading(s, t, id, Holding), Finish(t, now)) == Reading(Answered(s, id, now), t, id, Served)
  {
    var r := Reading(s, t, id, Holding);
    assert Is(r, t, Holding) && ObjOf(r, t) == s.objs[id];
    assert r.readers[t := Reader(id, Served)] == s.readers[t := Reader(id, Served)];
    assert Answered(r, id, now) == Reading(Answered(s, id, now), t, id, Holding);
  }

  lemma ReleaseOfGet<K>(cfg: Config, s: State<K>, t: nat, id: nat)
    requires id in s.objs && t !in s.readers
    ensures Next(cfg, Reading(s, t, id, Served), Release(t)) == WithBlock(s, id, Freed(s.objs[id].block))
  {
    assert s.readers[t := Reader(id, Served)] - {t} == s.readers;
  }

  /** The reference that was taken is given back. */
  lemma HeldIsFreed<K>(s: State<K>, id: nat, now: int)
    requires id in s.objs
    ensures var held := Answered(WithBlock(s, id, Held(s.objs[id].block)), id, now);
            id in held.objs && WithBlock(held, id, Freed(held.objs[id].block)) == Answered(s, id, now)
  {
    var held, done := Answered(WithBlock(s, id, Held(s.objs[id].block)), id, now), Answered(s, id, now);
    assert WithBlock(held, id, Freed(held.objs[id].block)).objs == done.objs;
  }

  /** Without anything in between, the three steps after the search leave just that, and no reference. */
  lemma StepsOfGet<K>(cfg: Config, s: State<K>, t: nat, id: nat, now: int)
    requires t !in s.readers && id in s.objs
    ensures var s2 := Next(cfg, Reading(s, t, id, Looking), Pin(t, now));
            Next(cfg, Next(cfg, s2, Finish(t, now)), Release(t)) == Answered(s, id, now)
  {
    var held := WithBlock(s, id, Held(s.objs[id].block));
    PinOfGet(cfg, s, t, id, now);
    FinishOfGet(cfg, held, t, id, now);
    ReleaseOfGet(cfg, Answered(held, id, now), t, id);
    HeldIsFreed(s, id, now);
  }

  lemma ServedView<K>(cfg: Config, s: State<K>, key: K, id: nat, now: int, order: seq<K>)
    requires WellFormed(s) && IdAt(s, key) == Some(id)
    requires !Expired(s.objs[id].block, now) && !NeedsRoom(cfg, View(s), key, now)
    ensures View(Answered(s, id, now)) == Read(cfg, View(s), key, now, order)
  {
    var o := s.objs[id];
    if o.inSwap {
      ToGpuView(s, id, Stamped(o, now));
    } else {
      BlocksWith(s.gpu, s.objs, key, id, Stamped(o, now));
      assert s.gpu[key := id] == s.gpu;
      BlocksElsewhere(s.swap, s.objs, id, Stamped(o, now));
    }
  }

  lemma ExpiredView<K>(cfg: Config, s: State<K>, key: K, id: nat, now: int, order: seq<K>)
    requires WellFormed(s) && IdAt(s, key) == Some(id) && Expired(s.objs[id].block, now)
    ensures View(RemoveAt(s, key)) == Read(cfg, View(s), key, now, order)
  {
    RemoveAtView(s, key);
  }

  lemma DropOfGet<K>(cfg: Config, s: State<K>, t: nat, key: K, id: nat, now: int)
    requires WellFormed(s) && t !in s.readers && IdAt(s, key) == Some(id)
    ensures Next(cfg, Reading(s, t, id, Looking), Drop(t, now)) == RemoveAt(s, key)
  {
    assert s.readers[t := Reader(id, Looking)] - {t} == s.readers;
  }

  /** A `Get` that nothing comes into, and that finds an expired block, is the atomic read. */
  lemma UndisturbedMiss<K>(cfg: Config, s: State<K>, t: nat, key: K, id: nat, now: int, order: seq<K>)
    requires WellFormed(s) && t !in s.readers && IdAt(s, key) == Some(id) && Expired(s.objs[id].block, now)
    ensures var s1 := Next(cfg, s, Look(t, key));
            var s2 := Next(cfg, s1, Drop(t, now));
            && Enabled(cfg, s, Look(t, key)) && Enabled(cfg, s1, Drop(t, now))
            && View(s2) == Read(cfg, View(s), key, now, order) && s2.readers == s.readers
  {
    assert Next(cfg, s, Look(t, key)) == Reading(s, t, id, Looking);
    DropOfGet(cfg, s, t, key, id, now);
    ExpiredView(cfg, s, key, id, now, order);
  }

  /** So is one that finds a block to return, where that needs no room: it stamps the block, moves it back, and
      leaves no reference. */
  lemma UndisturbedHit<K>(cfg: Config, s: State<K>, t: nat, key: K, id: nat, now: int, order: seq<K>)
    requires WellFormed(s) && t !in s.readers && IdAt(s, key) == Some(id) && !Expired(s.objs[id].block, now)
    requires !NeedsRoom(cfg, View(s), key, now)
    ensures var s1 := Next(cfg, s, Look(t, key));
            var s2 := Next(cfg, s1, Pin(t, now));
            var s3 := Next(cfg, s2, Finish(t, now));
            var s4 := Next(cfg, s3, Release(t));
            && Enabled(cfg, s, Look(t, key)) && Enabled(cfg, s1, Pin(t, now)) && Enabled(cfg, s2, Finish(t, now))
            && Enabled(cfg, s3, Release(t))
            && View(s4) == Read(cfg, View(s), key, now, order) && s4.readers == s.readers
  {
    var held := WithBlock(s, id, Held(s.objs[id].block));
    assert Next(cfg, s, Look(t, key)) == Reading(s, t, id, Looking);
    PinOfGet(cfg, s, t, id, now);
    FinishOfGet(cfg, held, t, id, now);
    StepsOfGet(cfg, s, t, id, now);
    ServedView(cfg, s, key, id, now, order);
  }

  // ---------------------------------------------------------------- a deleted block comes back

  lemma Onwards<K>(cfg: Config, states: seq<State<K>>, steps: seq<Step<K>>, step: Step<K>)
    returns (states': seq<State<K>>, steps': seq<Step<K>>)
    requires IsRun(cfg, states, steps) && Enabled(cfg, states[|steps|], step)
    ensures IsRun(cfg, states', steps') && states'[|steps'|] == Next(cfg, states[|steps|], step)
    ensures steps' == steps + [step]
  {
    states', steps' := states + [Next(cfg, states[|steps|], step)], steps + [step];
    forall i | 0 <= i < |steps'|
      ensures StepAt(cfg, states', steps', i)
    {
      assert i < |steps| ==> StepAt(cfg, states, steps, i);
    }
  }

  const OLD := "a"
  const NEW := "b"

  /** Two blocks of five bytes in ten, of which the older one may be in swap. */
  function TwoBlocks(b: Block, inSwap: bool): State<string> {
    var objs := map[0 := Obj(OLD, b, inSwap), 1 := Obj(NEW, b, false)];
    if inSwap then State(map[NEW := 1], map[OLD := 0], objs, 5, 5, 2, map[])
    else State(map[OLD := 0, NEW := 1], map[], objs, 10, 0, 2, map[])
  }

  const SMALL := Config(10, 100, true, 10)

  lemma BothStored(value: seq<byte>) returns (states: seq<State<string>>, steps: seq<Step<string>>)
    requires |value| == 5
    ensures IsRun(SMALL, states, steps) && |steps| == 2
    ensures states[2] == TwoBlocks(NewBlock(SMALL, value, 0, 0), false)
  {
    assert OLD != NEW;
    states, steps := Onwards(SMALL, [Initial()], [], Set(OLD, value, 0, 0, 0));
    states, steps := Onwards(SMALL, states, steps, Set(NEW, value, 0, 0, 1));
  }

  lemma OlderMayBeSwapped(b: Block)
    requires |b.kv| == 5 && b.refs == 0
    ensures Enabled(SMALL, TwoBlocks(b, false), Evict(OLD))
  {
    assert OLD != NEW;
  }

  lemma OlderIsSwapped(b: Block)
    requires |b.kv| == 5
    ensures Next(SMALL, TwoBlocks(b, false), Evict(OLD)) == TwoBlocks(b, true)
  {
    assert OLD != NEW;
    var s, s' := TwoBlocks(b, false), TwoBlocks(b, true);
    assert s.gpu - {OLD} == s'.gpu && s.swap[OLD := 0] == s'.swap;
    assert s.objs[0 := Obj(OLD, b, true)] == s'.objs;
    assert Next(SMALL, s, Evict(OLD)) == ToSwap(s, OLD, 0, Obj(OLD, b, false));
  }

  lemma OneInSwap(value: seq<byte>) returns (states: seq<State<string>>, steps: seq<Step<string>>)
    requires |value| == 5
    ensures IsRun(SMALL, states, steps) && |steps| == 3
    ensures states[3] == TwoBlocks(NewBlock(SMALL, value, 0, 0), true)
  {
    var b := NewBlock(SMALL, value, 0, 0);
    states, steps := BothStored(value);
    OlderMayBeSwapped(b);
    OlderIsSwapped(b);
    states, steps := Onwards(SMALL, states, steps, Evict(OLD));
  }

  /** Somebody deletes the block while a reader has it, and then the reader puts it back. */
  function Deleted(b: Block): State<string> {
    State(map[NEW := 1], map[], map[0 := Obj(OLD, Held(b), true), 1 := Obj(NEW, b, false)], 5, 0, 1,
          map[0 := Reader(0, Holding)])
  }

  function Back(b: Block): State<string> {
    State(map[NEW := 1, OLD := 0], map[], map[0 := Obj(OLD, Held(b), false), 1 := Obj(NEW, b, false)], 10, -5, 1,
          map[0 := Reader(0, Served)])
  }

  lemma ReadAndDeleted(b: Block)
    requires |b.kv| == 5 && b.accessedAt == 0 && !Expired(b, 0)
    ensures var s1 := Next(SMALL, TwoBlocks(b, true), Look(0, OLD));
            var s2 := Next(SMALL, s1, Pin(0, 0));
            && Enabled(SMALL, TwoBlocks(b, true), Look(0, OLD)) && Enabled(SMALL, s1, Pin(0, 0))
            && Next(SMALL, s2, Delete(OLD)) == Deleted(b)
  {
    assert OLD != NEW;
  }

  lemma PutBack(b: Block)
    requires |b.kv| == 5 && b.accessedAt == 0
    ensures Enabled(SMALL, Deleted(b), Finish(0, 0)) && Next(SMALL, Deleted(b), Finish(0, 0)) == Back(b)
  {
    assert OLD != NEW;
  }

  lemma BackIsFound(b: Block)
    requires !Expired(b, 0)
    ensures Lookup(View(Back(b)), OLD, 0) == Some(b.kv)
  {
    assert OLD != NEW;
    assert View(Back(b)).gpu[OLD] == Held(b);
  }

  lemma DeletedMeanwhile(value: seq<byte>) returns (states: seq<State<string>>, steps: seq<Step<string>>)
    requires |value| == 5
    ensures IsRun(SMALL, states, steps) && |steps| == 6 && steps[5] == Delete(OLD)
    ensures states[6] == Deleted(NewBlock(SMALL, value, 0, 0))
  {
    states, steps := OneInSwap(value);
    ReadAndDeleted(NewBlock(SMALL, value, 0, 0));
    states, steps := Onwards(SMALL, states, steps, Look(0, OLD));
    states, steps := Onwards(SMALL, states, steps, Pin(0, 0));
    states, steps := Onwards(SMALL, states, steps, Delete(OLD));
  }

  /** It does happen: a reader finds the block in swap, somebody deletes it, and the reader puts it back. Then
      the cache serves what was deleted, nothing is in swap and fewer bytes than that are counted there, and one
      entry is counted for two blocks. */
  lemma DeletedBlockIsBack(value: seq<byte>) returns (states: seq<State<string>>, steps: seq<Step<string>>)
    requires |value| == 5
    ensures IsRun(SMALL, states, steps) && |steps| == 7 && steps[5] == Delete(OLD)
    ensures Lookup(View(states[7]), OLD, 0) == Some(value)
    ensures states[7].swap == map[] && states[7].swapUsed == -5
    ensures states[7].gpu.Keys == {OLD, NEW} && states[7].entries == 1
  {
    states, steps := DeletedMeanwhile(value);
    PutBack(NewBlock(SMALL, value, 0, 0));
    states, steps := Onwards(SMALL, states, steps, Finish(0, 0));
    BackIsFound(NewBlock(SMALL, value, 0, 0));
  }
}
