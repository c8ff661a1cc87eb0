/** The time-slice manager as its own objects: pools of GPUs, each with its list of slots, and the
    records of what every service was given. */
module TimesliceManagers {
  import opened Common
  import opened Sorting
  import opened Rebalance
  import opened TimesliceSpec
  import opened TimesliceAlloc
  import opened TimesliceRuns

  class TimesliceGPU {
    const key: GpuKey
    const slotInterval: int
    const maxSlots: nat
    ghost const pool: string
    var slots: seq<Slot>
    var currentSlotIdx: nat
    var lastScheduled: int
    var totalAllocated: int

    constructor (key: GpuKey, slotInterval: int, maxSlots: nat, now: int, ghost pool: string)
      ensures this.key == key && this.slotInterval == slotInterval && this.maxSlots == maxSlots && this.pool == pool
      ensures View() == Gpu([], 0, now, 0)
    {
      this.key, this.slotInterval, this.maxSlots, this.pool := key, slotInterval, maxSlots, pool;
      slots, currentSlotIdx, lastScheduled, totalAllocated := [], 0, now, 0;
    }

    ghost function View(): Gpu
      reads this
    {
      Gpu(slots, currentSlotIdx, lastScheduled, totalAllocated)
    }

    /** Sorts the slots by priority and divides the interval among them. */
    method RebalanceSlots()
      modifies this`slots, this`totalAllocated
      ensures Rebalanced(old(View()), View(), slotInterval)
    {
      if |slots| == 0 {
        return;
      }
      ghost var was := slots;
      slots := SortBy(slots, (s: Slot) => -s.priority);
      SortedIsPriorityOrder(was, slots);
      Divide();
    }

    /** Divides the interval among the slots in their order; the last one gets what is left. */
    method Divide()
      requires slots != []
      modifies this`slots, this`totalAllocated
      ensures slots == Assign(old(slots), slotInterval) && totalAllocated == Allocated(old(slots), slotInterval)
    {
      var total := SumPriorities();
      var offset := LayOut(total);
      var last := |slots| - 1;
      if offset < slotInterval {
        slots := slots[last := slots[last].(duration := slots[last].duration + (slotInterval - offset))];
      }
      totalAllocated := offset;
    }

    method SumPriorities() returns (total: int)
      ensures total == TotalPriority(slots)
    {
      total := 0;
      for i := 0 to |slots|
        invariant total == TotalPriority(slots[..i])
      {
        assert slots[..i + 1][..i] == slots[..i];
        total := Wrap32(total + Wrap32(slots[i].priority + 1));
      }
      assert slots[..|slots|] == slots;
    }

    /** Gives slot `i` its start and its share. */
    method LayNext(ghost order: seq<Slot>, i: nat, total: int, offset: int) returns (end: int)
      requires i < |slots| && LaidFirst(order, slotInterval, total, i, offset, slots)
      modifies this`slots
      ensures LaidFirst(order, slotInterval, total, i + 1, end, slots)
    {
      OneMoreLaid(order, slotInterval, total, i, offset, slots);
      var share := Share(slotInterval, slots[i].priority, total);
      if share < MIN_SLOT {
        share := MIN_SLOT;
      }
      slots := slots[i := slots[i].(duration := share, start := offset)];
      end := offset + share;
    }

    /** Gives every slot its start and its share, in order. */
    method LayOut(total: int) returns (offset: int)
      modifies this`slots
      ensures slots == Laid(old(slots), slotInterval, total)
      ensures offset == Offset(old(slots), slotInterval, total, |old(slots)|)
    {
      ghost var order := slots;
      offset := 0;
      for i := 0 to |slots|
        invariant LaidFirst(order, slotInterval, total, i, offset, slots)
      {
        offset := LayNext(order, i, total, offset);
      }
      AllLaid(order, slotInterval, total, offset, slots);
    }

    method AddSlot(svc: Service) returns (slotId: string)
      modifies this`slots, this`totalAllocated
      ensures slotId == SlotId(svc, |old(slots)|) == "slot-" + svc.name + "-" + svc.ns + "-" + Decimal(|old(slots)|)
      ensures Rebalanced(WithNewSlot(old(View()), svc, slotInterval), View(), slotInterval)
    {
      slotId := SlotId(svc, |slots|);
      var slot := Slot(slotId, svc, 0, TruncDiv(slotInterval, |slots| + 1), 0, true);
      slots := slots + [slot];
      RebalanceSlots();
    }

    method ReleaseSlots(svc: Service)
      modifies this`slots, this`totalAllocated
      ensures GpuReleased(old(View()), svc, View(), slotInterval)
    {
      var newSlots := [];
      for i := 0 to |slots|
        invariant newSlots == Kept(slots[..i], svc)
      {
        assert slots[..i + 1][..i] == slots[..i];
        if slots[i].owner != svc {
          newSlots := newSlots + [slots[i]];
        }
      }
      assert slots[..|slots|] == slots;
      if |newSlots| != |slots| {
        slots := newSlots;
        RebalanceSlots();
      }
    }

    /** Finds the first slot with the id. */
    method FindSlot(id: string) returns (i: nat)
      ensures i <= |slots|
      ensures forall j :: 0 <= j < i ==> slots[j].id != id
      ensures i < |slots| ==> slots[i].id == id
    {
      i := 0;
      while i < |slots| && slots[i].id != id
        invariant i <= |slots|
        invariant forall j :: 0 <= j < i ==> slots[j].id != id
      {
        i := i + 1;
      }
    }

    method SetPriorityAt(i: nat, priority: int32)
      requires i < |slots|
      modifies this`slots, this`totalAllocated
      ensures Rebalanced(WithPriority(old(View()), i, priority as int), View(), slotInterval)
    {
      slots := slots[i := slots[i].(priority := priority as int)];
      RebalanceSlots();
    }

    method Schedule(now: int)
      modifies this`currentSlotIdx, this`lastScheduled
      ensures View() == Tick(old(View()), slotInterval, now)
      ensures var due := |slots| > 0 && now - old(lastScheduled) >= TruncDiv(slotInterval, |slots|);
              && currentSlotIdx == (if due then (old(currentSlotIdx) + 1) % |slots| else old(currentSlotIdx))
              && lastScheduled == if due then now else old(lastScheduled)
    {
      if |slots| == 0 {
        return;
      }
      var elapsed := now - lastScheduled;
      var slotDuration := TruncDiv(slotInterval, |slots|);
      if elapsed >= slotDuration {
        currentSlotIdx := (currentSlotIdx + 1) % |slots|;
        lastScheduled := now;
      }
    }
  }

  /** The first `n` slots of the order have their start and length, and end at `offset`. */
  ghost predicate LaidFirst(order: seq<Slot>, interval: int, total: int, n: nat, offset: int, slots: seq<Slot>) {
    && n <= |order| == |slots| && offset == Offset(order, interval, total, n)
    && forall j :: 0 <= j < |order| ==> slots[j] == if j < n then Laid(order, interval, total)[j] else order[j]
  }

  lemma OneMoreLaid(order: seq<Slot>, interval: int, total: int, n: nat, offset: int, slots: seq<Slot>)
    requires LaidFirst(order, interval, total, n, offset, slots) && n < |order|
    ensures var share := Length(interval, slots[n].priority, total);
            LaidFirst(order, interval, total, n + 1, offset + share,
                      slots[n := slots[n].(duration := share, start := offset)])
  {
  }

  lemma AllLaid(order: seq<Slot>, interval: int, total: int, offset: int, slots: seq<Slot>)
    requires LaidFirst(order, interval, total, |order|, offset, slots)
    ensures slots == Laid(order, interval, total) && offset == Offset(order, interval, total, |order|)
  {
  }

  /** Where a slot is: in a pool, on a GPU, at an index. */
  datatype Place = Place(pool: string, gpu: GpuKey, index: nat)

  datatype PoolConfig = PoolConfig(slotInterval: int, maxSlots: nat, gpus: map<GpuKey, TimesliceGPU>)

  function WithFiled(pools: map<string, PoolConfig>, p: string, k: GpuKey, gpu: TimesliceGPU): map<string, PoolConfig>
    requires p in pools
  {
    pools[p := pools[p].(gpus := pools[p].gpus[k := gpu])]
  }

  ghost function ObjectsOf(pools: map<string, PoolConfig>): set<TimesliceGPU> {
    set p, k | p in pools && k in pools[p].gpus :: pools[p].gpus[k]
  }

  class TimesliceManager {
    var pools: map<string, PoolConfig>
    var allocations: map<Service, seq<Allocation>>
    ghost var state: State

    ghost function Objects(): set<TimesliceGPU>
      reads this`pools
    {
      ObjectsOf(pools)
    }

    /** The maps are those of the state. */
    ghost predicate Shape()
      reads this`pools, this`allocations, this`state
    {
      && allocations == state.allocs
      && (forall p :: p in pools <==> p in state.pools)
      && (forall p :: p in pools ==>
                        && pools[p].slotInterval == state.pools[p].interval
                        && pools[p].maxSlots == state.pools[p].maxSlots
                        && pools[p].gpus.Keys == state.pools[p].gpus.Keys)
    }

    /** A GPU object knows its pool and its key, so no two places hold the same one. */
    ghost predicate Matches(p: string, k: GpuKey, gpu: TimesliceGPU)
      requires p in state.pools && k in state.pools[p].gpus
      reads this`state, gpu
    {
      && gpu.pool == p && gpu.key == k
      && gpu.slotInterval == state.pools[p].interval && gpu.maxSlots == state.pools[p].maxSlots
      && gpu.View() == state.pools[p].gpus[k]
    }

    /** All but the object at `(p, k)` have the values that the state has for them. */
    ghost predicate OthersMatch(p: string, k: GpuKey)
      requires Shape()
      reads this, Objects()
    {
      forall q, j {:trigger Matches(q, j, pools[q].gpus[j])} ::
        q in pools && j in pools[q].gpus && (q != p || j != k) ==> Matches(q, j, pools[q].gpus[j])
    }

    ghost predicate Valid()
      reads this, Objects()
    {
      && Shape() && PoolsValid(state)
      && forall p, k {:trigger Matches(p, k, pools[p].gpus[k])} ::
           p in pools && k in pools[p].gpus ==> Matches(p, k, pools[p].gpus[k])
    }

    constructor ()
      ensures Valid() && state == EMPTY_STATE
    {
      pools, allocations, state := map[], map[], EMPTY_STATE;
    }

    method ConfigurePool(name: string, timeslice: bool, millis: int32) returns (ok: bool)
      requires Valid()
      modifies this`pools, this`state
      ensures Valid() && ok == timeslice
      ensures state == if ok then Configured(old(state), name, millis) else old(state)
      ensures ok ==> name in pools && pools[name].gpus == map[] && pools[name].maxSlots == 10
                     && pools[name].slotInterval == if millis == 0 then 100_000_000 else millis as int * 1_000_000
      ensures pools - {name} == old(pools) - {name} && allocations == old(allocations)
    {
      ok := timeslice;
      if !ok {
        return;
      }
      var slotInterval := millis as int * 1_000_000;
      if slotInterval == 0 {
        slotInterval := DEFAULT_INTERVAL;
      }
      pools := pools[name := PoolConfig(slotInterval, MAX_SLOTS, map[])];
      state := Configured(state, name, millis);
      forall p, k | p in pools && k in pools[p].gpus
        ensures Matches(p, k, pools[p].gpus[k])
      {
        assert old(Matches(p, k, pools[p].gpus[k]));
      }
    }

    method CleanupPool(name: string) returns (ok: bool)
      requires Valid()
      modifies this`pools, this`state
      ensures Valid() && state == CleanedUp(old(state), name)
      ensures ok <==> name in old(state).pools ==>
                        forall k :: k in old(state).pools[name].gpus ==> old(state).pools[name].gpus[k].slots == []
      ensures pools == if ok then old(pools) - {name} else old(pools)
    {
      if name !in pools {
        return true;
      }
      var gpus := pools[name].gpus;
      var todo := gpus.Keys;
      while todo != {}
        invariant todo <= gpus.Keys
        invariant forall k :: k in gpus && k !in todo ==> state.pools[name].gpus[k].slots == []
      {
        var k :| k in todo;
        assert Matches(name, k, gpus[k]);
        if |gpus[k].slots| > 0 {
          return false;
        }
        todo := todo - {k};
      }
      pools := pools - {name};
      state := CleanedUp(state, name);
      forall p, k | p in pools && k in pools[p].gpus
        ensures Matches(p, k, pools[p].gpus[k])
      {
        assert old(Matches(p, k, pools[p].gpus[k]));
      }
      return true;
    }

    /** Looks for a configured GPU with room, then for a device of the pool to configure. */
    method FindGPU(r: Request) returns (found: Option<GpuKey>)
      requires Valid() && r.pool in pools
      ensures found.Some? ==> Chosen(state.pools[r.pool], r.gpus, found.value)
      ensures found.None? ==> Exhausted(state.pools[r.pool], r.gpus)
      ensures var gpus := state.pools[r.pool].gpus;
              && (found.Some? && found.value in gpus ==> |gpus[found.value].slots| < 10)
              && (found.Some? && found.value !in gpus ==>
                    AllFull(state.pools[r.pool]) && exists i :: 0 <= i < |r.gpus| && r.gpus[i] == found.value
                                                                && forall j :: 0 <= j < i ==> r.gpus[j] in gpus)
      ensures found.None? ==> AllFull(state.pools[r.pool]) && forall k :: k in r.gpus ==> k in state.pools[r.pool].gpus
    {
      var gpus := pools[r.pool].gpus;
      var todo := gpus.Keys;
      while todo != {}
        invariant todo <= gpus.Keys
        invariant forall k :: k in gpus && k !in todo ==> !HasRoom(state.pools[r.pool], k)
      {
        var k :| k in todo;
        assert Matches(r.pool, k, gpus[k]);
        if |gpus[k].slots| < gpus[k].maxSlots {
          ChosenIs(state.pools[r.pool], r.gpus, k);
          return Some(k);
        }
        todo := todo - {k};
      }
      for i := 0 to |r.gpus|
        invariant forall j :: 0 <= j < i ==> r.gpus[j] in gpus
      {
        if r.gpus[i] !in gpus {
          ChosenIs(state.pools[r.pool], r.gpus, r.gpus[i]);
          return Some(r.gpus[i]);
        }
      }
      ExhaustedIs(state.pools[r.pool], r.gpus);
      return None;
    }

    /** Sets a device up for time-slicing, with no slot on it yet. */
    method CreateGPU(r: Request, k: GpuKey) returns (gpu: TimesliceGPU)
      requires Valid() && r.pool in pools && k !in pools[r.pool].gpus
      modifies this`pools, this`state
      ensures Valid() && fresh(gpu) && fresh(Objects() - old(Objects()))
      ensures pools.Keys == old(pools).Keys && k in pools[r.pool].gpus && pools[r.pool].gpus[k] == gpu
      ensures state == old(state).(pools := old(state).pools[r.pool :=
                WithGpu(old(state).pools[r.pool], k, Gpu([], 0, r.now, 0))])
    {
      gpu := new TimesliceGPU(k, pools[r.pool].slotInterval, pools[r.pool].maxSlots, r.now, r.pool);
      FileGPU(r.pool, k, gpu);
    }

    /** Puts a new GPU into its pool. */
    method FileGPU(p: string, k: GpuKey, gpu: TimesliceGPU)
      requires Valid() && p in pools && k !in pools[p].gpus && gpu !in Objects()
      requires gpu.pool == p && gpu.key == k && gpu.slots == []
      requires gpu.slotInterval == pools[p].slotInterval && gpu.maxSlots == pools[p].maxSlots
      modifies this`pools, this`state
      ensures Valid() && pools == WithFiled(old(pools), p, k, gpu)
      ensures state == old(state).(pools := old(state).pools[p := WithGpu(old(state).pools[p], k, gpu.View())])
    {
      GpuStaysValid(state, p, k, gpu.View());
      ghost var was := pools;
      pools := WithFiled(pools, p, k, gpu);
      state := state.(pools := state.pools[p := WithGpu(state.pools[p], k, gpu.View())]);
      forall q, j | q in pools && j in pools[q].gpus
        ensures Matches(q, j, pools[q].gpus[j])
      {
        if q != p || j != k {
          assert pools[q].gpus[j] == was[q].gpus[j];
          assert old(Matches(q, j, pools[q].gpus[j]));
        }
      }
    }

    /** After the object at `(p, k)` changed, and nothing else: files its new value in the state. */
    ghost method Note(p: string, k: GpuKey, gpu: TimesliceGPU)
      requires Shape() && p in pools && k in pools[p].gpus && gpu == pools[p].gpus[k]
      requires OthersMatch(p, k) && gpu.pool == p && gpu.key == k
      requires gpu.slotInterval == state.pools[p].interval && gpu.maxSlots == state.pools[p].maxSlots
      requires PoolsValid(state) && |gpu.slots| <= MAX_SLOTS && Balanced(gpu.slots, gpu.slotInterval)
      modifies this`state
      ensures Valid()
      ensures state == old(state).(pools := old(state).pools[p := WithGpu(old(state).pools[p], k, gpu.View())])
    {
      GpuStaysValid(state, p, k, gpu.View());
      state := state.(pools := state.pools[p := WithGpu(state.pools[p], k, gpu.View())]);
      forall q, j | q in pools && j in pools[q].gpus
        ensures Matches(q, j, pools[q].gpus[j])
      {
        if q != p || j != k {
          assert old(Matches(q, j, pools[q].gpus[j]));
        }
      }
    }

    method ReleaseGPU(p: string, k: GpuKey, svc: Service)
      requires Valid() && p in pools && k in pools[p].gpus
      modifies this`state, pools[p].gpus[k]
      ensures Valid()
      ensures exists g :: GpuReleased(old(state).pools[p].gpus[k], svc, g, old(state).pools[p].interval)
                          && state == old(state).(pools := old(state).pools[p := WithGpu(old(state).pools[p], k, g)])
    {
      var gpu := pools[p].gpus[k];
      assert Matches(p, k, gpu);
      assert PoolValid(state.pools[p]);
      gpu.ReleaseSlots(svc);
      ReleasedIsBalanced(old(state).pools[p].gpus[k], svc, gpu.View(), state.pools[p].interval);
      forall q, j | q in pools && j in pools[q].gpus && (q != p || j != k)
        ensures Matches(q, j, pools[q].gpus[j])
      {
        assert old(Matches(q, j, pools[q].gpus[j]));
      }
      Note(p, k, gpu);
    }

    /** The GPU for `k`, set up first if it is not yet. */
    method EnsureGPU(r: Request, k: GpuKey)
      requires Valid() && r.pool in pools
      modifies this`pools, this`state
      ensures Valid() && fresh(Objects() - old(Objects()))
      ensures pools.Keys == old(pools).Keys && k in pools[r.pool].gpus
      ensures r.pool in old(state).pools && state == Prepared(old(state), r, k)
    {
      if k !in pools[r.pool].gpus {
        var created := CreateGPU(r, k);
      } else {
        PreparedAlready(state, r, k);
      }
    }

    method PlaceSlot(r: Request, k: GpuKey) returns (slotId: string, ghost g: Gpu)
      requires Valid() && r.pool in pools && k in pools[r.pool].gpus
      requires |state.pools[r.pool].gpus[k].slots| < MAX_SLOTS
      modifies this`state, pools[r.pool].gpus[k]
      ensures Valid() && slotId == SlotId(r.service, |old(state).pools[r.pool].gpus[k].slots|)
      ensures Rebalanced(WithNewSlot(old(state).pools[r.pool].gpus[k], r.service, old(state).pools[r.pool].interval), g,
                         old(state).pools[r.pool].interval)
      ensures state == old(state).(pools := old(state).pools[r.pool := WithGpu(old(state).pools[r.pool], k, g)])
    {
      var gpu := pools[r.pool].gpus[k];
      assert Matches(r.pool, k, gpu);
      assert PoolValid(state.pools[r.pool]);
      slotId := gpu.AddSlot(r.service);
      g := gpu.View();
      RebalancedIsBalanced(WithNewSlot(old(state).pools[r.pool].gpus[k], r.service, gpu.slotInterval), g,
                           gpu.slotInterval);
      forall q, j | q in pools && j in pools[q].gpus && (q != r.pool || j != k)
        ensures Matches(q, j, pools[q].gpus[j])
      {
        assert old(Matches(q, j, pools[q].gpus[j]));
      }
      Note(r.pool, k, gpu);
    }

    method Record(svc: Service, allocation: Allocation)
      requires Valid()
      modifies this`allocations, this`state
      ensures Valid()
      ensures state == old(state).(allocs := old(state).allocs[svc := AllocsOf(old(state), svc) + [allocation]])
    {
      var had := if svc in allocations then allocations[svc] else [];
      allocations := allocations[svc := had + [allocation]];
      state := state.(allocs := allocations);
      forall p, k | p in pools && k in pools[p].gpus
        ensures Matches(p, k, pools[p].gpus[k])
      {
        assert old(Matches(p, k, pools[p].gpus[k]));
      }
    }

    /** Creates a slot for the service on a configured GPU, and records it. */
    method PlaceAndRecord(r: Request, k: GpuKey) returns (ghost g: Gpu)
      requires Valid() && r.pool in pools && k in pools[r.pool].gpus
      requires |state.pools[r.pool].gpus[k].slots| < MAX_SLOTS
      modifies this`allocations, this`state, pools[r.pool].gpus[k]
      ensures Valid() && Objects() == old(Objects())
      ensures Rebalanced(WithNewSlot(old(state).pools[r.pool].gpus[k], r.service, old(state).pools[r.pool].interval), g,
                         old(state).pools[r.pool].interval)
      ensures state == WithSlotRecorded(old(state), r, k, g)
    {
      var slotId;
      slotId, g := PlaceSlot(r, k);
      Record(r.service, Allocation(k, slotId));
    }

    /** Sets the GPU up if need be, and creates a slot for the service on it. */
    method SetUpAndPlace(r: Request, k: GpuKey) returns (ghost g: Gpu)
      requires Valid() && r.pool in pools && Chosen(state.pools[r.pool], r.gpus, k)
      modifies this`pools, this`allocations, this`state, Objects()
      ensures Valid() && fresh(Objects() - old(Objects())) && r.pool in pools
      ensures var pool := old(state).pools[r.pool];
              Rebalanced(WithNewSlot(GpuAt(pool, k, r.now), r.service, pool.interval), g, pool.interval)
      ensures state == WithSlotRecorded(Prepared(old(state), r, k), r, k, g)
    {
      ChosenHasRoom(state, r, k);
      EnsureGPU(r, k);
      g := PlaceAndRecord(r, k);
    }

    /** Creates a slot for the service on a GPU that the search came up with. */
    method GiveSlot(r: Request, k: GpuKey)
      requires Valid() && r.pool in pools && Chosen(state.pools[r.pool], r.gpus, k)
      modifies this`pools, this`allocations, this`state, Objects()
      ensures Valid() && fresh(Objects() - old(Objects()))
      ensures r.pool in pools && AllocStep(old(state), r, state) && RecordsAre(old(state), r.service, [k], state)
    {
      ghost var g := SetUpAndPlace(r, k);
      OneSlot(old(state), r, k, g);
    }

    /** One turn of the allocation loop. */
    method GiveNext(r: Request) returns (found: Option<GpuKey>)
      requires Valid() && r.pool in pools
      modifies this`pools, this`allocations, this`state, Objects()
      ensures Valid() && fresh(Objects() - old(Objects())) && r.pool in pools
      ensures found.Some? ==> AllocStep(old(state), r, state) && RecordsAre(old(state), r.service, [found.value], state)
      ensures found.None? ==> state == old(state) && Exhausted(state.pools[r.pool], r.gpus)
    {
      found := FindGPU(r);
      if found.Some? {
        GiveSlot(r, found.value);
      }
    }

    /** The loop of an allocation: one slot after the other, until all are given or none can be. */
    method GiveSlots(r: Request) returns (given: seq<GpuKey>, ghost trace: seq<State>)
      requires Valid() && r.pool in pools
      modifies this`pools, this`allocations, this`state, Objects()
      ensures Valid() && fresh(Objects() - old(Objects()))
      ensures |given| <= r.count && |trace| == |given| + 1
      ensures trace[0] == old(state) && trace[|given|] == state && AllocTrace(trace, r)
      ensures r.pool in state.pools && RecordsAre(old(state), r.service, given, state)
      ensures |given| < r.count ==> Exhausted(state.pools[r.pool], r.gpus)
    {
      trace, given := [state], [];
      while |given| < r.count
        invariant Valid() && fresh(Objects() - old(Objects())) && r.pool in pools
        invariant |given| <= r.count && Given(r, old(state), given, trace, state)
      {
        var found := GiveNext(r);
        if found.None? {
          return;
        }
        OneMoreGiven(r, old(state), given, trace, state, found.value);
        trace, given := trace + [state], given + [found.value];
      }
    }

    /** Allocates slots one by one; when the pool runs out, everything the service has is released.
        `trace` lists the states gone through. */
    method Allocate(r: Request) returns (ok: bool, given: seq<GpuKey>, ghost trace: seq<State>)
      requires Valid()
      modifies this`pools, this`allocations, this`state, Objects()
      ensures Valid() && AllocateVia(old(state), r, trace, state, ok)
      ensures ok <==> r.pool in old(state).pools && r.count <= RoomIn(old(state).pools[r.pool], r.gpus)
      ensures ok ==> |given| == r.count && RecordsAre(old(state), r.service, given, state)
    {
      trace, given := [state], [];
      if r.pool !in pools {
        return false, given, trace;
      }
      given, trace := GiveSlots(r);
      ok := |given| == r.count;
      if !ok {
        ReleaseSlots(r.service);
      }
      AllocateSucceedsIff(old(state), r, trace, state, ok);
    }

    method ReleasePool(p: string, svc: Service)
      requires Valid() && p in pools
      modifies this`state, Objects()
      ensures Valid() && state.allocs == old(state).allocs
      ensures p in state.pools && state.pools == old(state).pools[p := state.pools[p]]
      ensures PoolReleased(old(state).pools[p], svc, state.pools[p])
    {
      var todo := pools[p].gpus.Keys;
      while todo != {}
        invariant Valid() && todo <= pools[p].gpus.Keys
        invariant state.allocs == old(state).allocs && state.pools == old(state).pools[p := state.pools[p]]
        invariant PartlyReleased(old(state).pools[p], svc, state.pools[p], todo)
      {
        var k :| k in todo;
        ghost var before := state;
        ReleaseGPU(p, k, svc);
        OneMoreReleased(old(state), before, state, p, k, svc, todo);
        todo := todo - {k};
      }
    }

    method ReleasePools(svc: Service)
      requires Valid()
      modifies this`state, Objects()
      ensures Valid() && state.allocs == old(state).allocs
      ensures state.pools.Keys == old(state).pools.Keys
      ensures forall p :: p in state.pools ==> PoolReleased(old(state).pools[p], svc, state.pools[p])
    {
      var todo := pools.Keys;
      while todo != {}
        invariant Valid() && todo <= pools.Keys && state.pools.Keys == old(state).pools.Keys
        invariant state.allocs == old(state).allocs
        invariant forall p :: p in todo ==> state.pools[p] == old(state).pools[p]
        invariant forall p :: p in state.pools && p !in todo ==> PoolReleased(old(state).pools[p], svc, state.pools[p])
      {
        var p :| p in todo;
        ReleasePool(p, svc);
        todo := todo - {p};
      }
    }

    method Forget(svc: Service)
      requires Valid()
      modifies this`allocations, this`state
      ensures Valid() && state == old(state).(allocs := old(state).allocs - {svc})
    {
      allocations := allocations - {svc};
      state := state.(allocs := state.allocs - {svc});
      forall p, k | p in pools && k in pools[p].gpus
        ensures Matches(p, k, pools[p].gpus[k])
      {
        assert old(Matches(p, k, pools[p].gpus[k]));
      }
    }

    /** Takes every slot of the service away, in all pools, and forgets the records of it. */
    method ReleaseSlots(svc: Service)
      requires Valid()
      modifies this`allocations, this`state, Objects()
      ensures Valid() && Released(old(state), svc, state)
    {
      ReleasePools(svc);
      Forget(svc);
    }

    method Release(svc: Service)
      requires Valid()
      modifies this`allocations, this`state, Objects()
      ensures Valid() && Released(old(state), svc, state)
    {
      ReleaseSlots(svc);
    }

    method SchedulePool(p: string, now: int)
      requires Valid() && p in pools
      modifies this`state, Objects()
      ensures Valid() && state.allocs == old(state).allocs
      ensures p in state.pools && state.pools == old(state).pools[p := TickPool(old(state).pools[p], now)]
    {
      var todo := pools[p].gpus.Keys;
      while todo != {}
        invariant Valid() && todo <= pools[p].gpus.Keys
        invariant state.allocs == old(state).allocs && state.pools == old(state).pools[p := state.pools[p]]
        invariant PartlyTicked(old(state).pools[p], now, state.pools[p], todo)
      {
        var k :| k in todo;
        ghost var before := state;
        ScheduleGPU(p, k, now);
        OneMoreTicked(old(state), before, state, p, k, now, todo);
        todo := todo - {k};
      }
      assert state.pools[p] == TickPool(old(state).pools[p], now);
    }

    method ScheduleGPU(p: string, k: GpuKey, now: int)
      requires Valid() && p in pools && k in pools[p].gpus
      modifies this`state, pools[p].gpus[k]
      ensures Valid()
      ensures var pool := old(state).pools[p];
              state == old(state).(pools := old(state).pools[p :=
                         WithGpu(pool, k, Tick(pool.gpus[k], pool.interval, now))])
    {
      var gpu := pools[p].gpus[k];
      assert Matches(p, k, gpu);
      assert PoolValid(state.pools[p]);
      gpu.Schedule(now);
      forall q, j | q in pools && j in pools[q].gpus && (q != p || j != k)
        ensures Matches(q, j, pools[q].gpus[j])
      {
        assert old(Matches(q, j, pools[q].gpus[j]));
      }
      Note(p, k, gpu);
    }

    method ScheduleSlots(now: int)
      requires Valid()
      modifies this`state, Objects()
      ensures Valid() && state == TickAll(old(state), now)
      ensures forall p, k :: p in old(state).pools && k in old(state).pools[p].gpus ==>
                && p in state.pools && k in state.pools[p].gpus
                && state.pools[p].gpus[k] == Tick(old(state).pools[p].gpus[k], old(state).pools[p].interval, now)
    {
      var todo := pools.Keys;
      while todo != {}
        invariant Valid() && todo <= pools.Keys && state.pools.Keys == old(state).pools.Keys
        invariant state.allocs == old(state).allocs
        invariant forall p :: p in state.pools ==>
                    state.pools[p] == if p in todo then old(state).pools[p] else TickPool(old(state).pools[p], now)
      {
        var p :| p in todo;
        SchedulePool(p, now);
        todo := todo - {p};
      }
      assert state.pools == TickAll(old(state), now).pools;
    }

    /** Gives the priority to the first slot with the id that the search comes across. */
    method SetSlotPriority(id: string, priority: int32) returns (ok: bool)
      requires Valid()
      modifies this`state, Objects()
      ensures Valid() && PrioritySet(old(state), id, priority as int, state, ok)
      ensures ok ==> PriorityGivenOnce(old(state), id, priority as int, state)
      ensures !ok ==> state == old(state) && forall p, k, i ::
                p in state.pools && k in state.pools[p].gpus && 0 <= i < |state.pools[p].gpus[k].slots| ==>
                  state.pools[p].gpus[k].slots[i].id != id
    {
      var place := LocateSlot(id);
      if place.None? {
        return false;
      }
      var Place(p, k, i) := place.value;
      SetPriorityOn(p, k, i, id, priority);
      return true;
    }

    method LocateSlot(id: string) returns (place: Option<Place>)
      requires Valid()
      ensures place.Some? ==> var Place(p, k, i) := place.value; p in pools && FirstOf(p, k, i, id)
      ensures place.None? ==> !HasSlotId(state, id)
    {
      var todo := pools.Keys;
      while todo != {}
        invariant todo <= pools.Keys
        invariant forall p :: p in pools && p !in todo ==> NoneIn(p, id)
      {
        var p :| p in todo;
        place := LocateInPool(p, id);
        if place.Some? {
          return;
        }
        todo := todo - {p};
      }
      return None;
    }

    ghost predicate FirstOf(p: string, k: GpuKey, i: nat, id: string)
      reads this`state
    {
      && p in state.pools && k in state.pools[p].gpus && i < |state.pools[p].gpus[k].slots|
      && state.pools[p].gpus[k].slots[i].id == id
      && forall j :: 0 <= j < i ==> state.pools[p].gpus[k].slots[j].id != id
    }

    ghost predicate NoneIn(p: string, id: string)
      requires p in state.pools
      reads this`state
    {
      forall k, i :: k in state.pools[p].gpus && 0 <= i < |state.pools[p].gpus[k].slots| ==>
        state.pools[p].gpus[k].slots[i].id != id
    }

    method LocateInPool(p: string, id: string) returns (place: Option<Place>)
      requires Valid() && p in pools
      ensures place.Some? ==> place.value.pool == p && FirstOf(p, place.value.gpu, place.value.index, id)
      ensures place.None? ==> NoneIn(p, id)
    {
      var gpus := pools[p].gpus;
      var todo := gpus.Keys;
      while todo != {}
        invariant todo <= gpus.Keys
        invariant forall k, i :: k in gpus && k !in todo && 0 <= i < |state.pools[p].gpus[k].slots| ==>
                                   state.pools[p].gpus[k].slots[i].id != id
      {
        var k :| k in todo;
        assert Matches(p, k, gpus[k]);
        var i := gpus[k].FindSlot(id);
        if i < |gpus[k].slots| {
          return Some(Place(p, k, i));
        }
        todo := todo - {k};
      }
      return None;
    }

    method SetPriorityOn(p: string, k: GpuKey, i: nat, ghost id: string, priority: int32)
      requires Valid() && p in pools && FirstOf(p, k, i, id)
      modifies this`state, pools[p].gpus[k]
      ensures Valid() && PrioritySet(old(state), id, priority as int, state, true)
      ensures PriorityGiven(old(state), id, priority as int, p, k, i, state)
    {
      var gpu := pools[p].gpus[k];
      assert Matches(p, k, gpu);
      assert PoolValid(state.pools[p]);
      gpu.SetPriorityAt(i, priority);
      RebalancedIsBalanced(WithPriority(old(state).pools[p].gpus[k], i, priority as int), gpu.View(),
                           state.pools[p].interval);
      forall q, j | q in pools && j in pools[q].gpus && (q != p || j != k)
        ensures Matches(q, j, pools[q].gpus[j])
      {
        assert old(Matches(q, j, pools[q].gpus[j]));
      }
      Note(p, k, gpu);
      assert PriorityChanged(old(state), id, priority as int, p, k, i, gpu.View(), state);
      PriorityChangedGives(old(state), id, priority as int, p, k, i, gpu.View(), state);
    }
  }

  ghost function Prepared(s: State, r: Request, k: GpuKey): State
    requires r.pool in s.pools
  {
    s.(pools := s.pools[r.pool := WithGpu(s.pools[r.pool], k, GpuAt(s.pools[r.pool], k, r.now))])
  }

  lemma GpuStaysValid(s: State, p: string, k: GpuKey, g: Gpu)
    requires PoolsValid(s) && p in s.pools && |g.slots| <= MAX_SLOTS && Balanced(g.slots, s.pools[p].interval)
    ensures PoolsValid(s.(pools := s.pools[p := WithGpu(s.pools[p], k, g)]))
  {
    assert PoolValid(s.pools[p]);
  }

  lemma PreparedAlready(s: State, r: Request, k: GpuKey)
    requires r.pool in s.pools && k in s.pools[r.pool].gpus
    ensures Prepared(s, r, k) == s
  {
    var pool := s.pools[r.pool];
    assert pool.gpus[k := pool.gpus[k]] == pool.gpus;
    assert s.pools[r.pool := pool] == s.pools;
  }

  lemma ChosenHasRoom(s: State, r: Request, k: GpuKey)
    requires PoolsValid(s) && r.pool in s.pools && Chosen(s.pools[r.pool], r.gpus, k)
    ensures |GpuAt(s.pools[r.pool], k, r.now).slots| < MAX_SLOTS
  {
    assert PoolValid(s.pools[r.pool]);
  }

  ghost function WithSlotRecorded(s: State, r: Request, k: GpuKey, g: Gpu): State
    requires r.pool in s.pools && k in s.pools[r.pool].gpus
  {
    var allocation := Allocation(k, SlotId(r.service, |s.pools[r.pool].gpus[k].slots|));
    State(s.pools[r.pool := WithGpu(s.pools[r.pool], k, g)],
          s.allocs[r.service := AllocsOf(s, r.service) + [allocation]])
  }

  /** Configuring a GPU, where needed, placing a slot on it and recording it make one step of the
      allocation. */
  lemma OneSlot(s: State, r: Request, k: GpuKey, g: Gpu)
    requires r.pool in s.pools && Chosen(s.pools[r.pool], r.gpus, k)
    requires Rebalanced(WithNewSlot(GpuAt(s.pools[r.pool], k, r.now), r.service, s.pools[r.pool].interval), g,
                        s.pools[r.pool].interval)
    ensures AllocStep(s, r, WithSlotRecorded(Prepared(s, r, k), r, k, g))
    ensures RecordsAre(s, r.service, [k], WithSlotRecorded(Prepared(s, r, k), r, k, g))
  {
    var pool, s1 := s.pools[r.pool], Prepared(s, r, k);
    assert s1.pools[r.pool].gpus[k := g] == pool.gpus[k := g];
    assert s1.pools[r.pool := WithGpu(s1.pools[r.pool], k, g)] == s.pools[r.pool := WithGpu(pool, k, g)];
    assert SlotAdded(s, r, k, g, WithSlotRecorded(s1, r, k, g));
  }

  /** What the service was given since: its new records are for these GPUs, in this order. */
  ghost predicate RecordsAre(s: State, svc: Service, given: seq<GpuKey>, s': State) {
    var had, has := AllocsOf(s, svc), AllocsOf(s', svc);
    && |has| == |had| + |given| && has[..|had|] == had
    && forall i :: 0 <= i < |given| ==> has[|had| + i].gpu == given[i]
  }

  lemma MoreRecords(s: State, s1: State, s2: State, svc: Service, given: seq<GpuKey>, k: GpuKey)
    requires RecordsAre(s, svc, given, s1) && RecordsAre(s1, svc, [k], s2)
    ensures RecordsAre(s, svc, given + [k], s2)
  {
    var had, has := AllocsOf(s1, svc), AllocsOf(s2, svc);
    assert has[|had| + 0].gpu == [k][0];
    assert forall i :: 0 <= i < |had| ==> has[i] == has[..|had|][i];
  }

  lemma TraceGrows(trace: seq<State>, r: Request, s: State)
    requires AllocTrace(trace, r) && AllocStep(trace[|trace| - 1], r, s)
    ensures AllocTrace(trace + [s], r)
  {
    forall i | 0 <= i < |trace|
      ensures AllocStep((trace + [s])[i], r, (trace + [s])[i + 1])
    {
      assert i < |trace| - 1 ==> AllocStep(trace[i], r, trace[i + 1]);
    }
  }

  /** `trace` leads from `s` to `s'` and gives the service a slot on each of the GPUs. */
  ghost predicate Given(r: Request, s: State, given: seq<GpuKey>, trace: seq<State>, s': State) {
    && |trace| == |given| + 1 && AllocTrace(trace, r) && trace[0] == s && trace[|given|] == s'
    && RecordsAre(s, r.service, given, s')
  }

  lemma OneMoreGiven(r: Request, s: State, given: seq<GpuKey>, trace: seq<State>, s': State, k: GpuKey)
    requires |trace| == |given| + 1 && Given(r, s, given, trace, trace[|given|])
    requires AllocStep(trace[|given|], r, s') && RecordsAre(trace[|given|], r.service, [k], s')
    ensures Given(r, s, given + [k], trace + [s'], s')
  {
    TraceGrows(trace, r, s');
    MoreRecords(s, trace[|given|], s', r.service, given, k);
  }

  ghost predicate PoolReleased(pool: Pool, svc: Service, pool': Pool) {
    PartlyReleased(pool, svc, pool', {})
  }

  /** The GPUs in `todo` are still to be visited. */
  ghost predicate PartlyReleased(pool: Pool, svc: Service, pool': Pool, todo: set<GpuKey>) {
    && pool'.interval == pool.interval && pool'.maxSlots == pool.maxSlots && pool'.gpus.Keys == pool.gpus.Keys
    && forall k :: k in pool.gpus ==>
         if k in todo then pool'.gpus[k] == pool.gpus[k]
         else GpuReleased(pool.gpus[k], svc, pool'.gpus[k], pool.interval)
  }

  lemma OneMoreReleased(s: State, s1: State, s2: State, p: string, k: GpuKey, svc: Service, todo: set<GpuKey>)
    requires p in s.pools && p in s1.pools && k in todo && k in s.pools[p].gpus
    requires s1.pools == s.pools[p := s1.pools[p]] && PartlyReleased(s.pools[p], svc, s1.pools[p], todo)
    requires exists g :: GpuReleased(s1.pools[p].gpus[k], svc, g, s1.pools[p].interval)
                         && s2 == s1.(pools := s1.pools[p := WithGpu(s1.pools[p], k, g)])
    ensures p in s2.pools && s2.allocs == s1.allocs && s2.pools == s.pools[p := s2.pools[p]]
    ensures PartlyReleased(s.pools[p], svc, s2.pools[p], todo - {k})
  {
  }

  lemma OneMoreTicked(s: State, s1: State, s2: State, p: string, k: GpuKey, now: int, todo: set<GpuKey>)
    requires p in s.pools && p in s1.pools && k in todo && k in s.pools[p].gpus
    requires s1.pools == s.pools[p := s1.pools[p]] && PartlyTicked(s.pools[p], now, s1.pools[p], todo)
    requires s2 == s1.(pools := s1.pools[p :=
                     WithGpu(s1.pools[p], k, Tick(s1.pools[p].gpus[k], s1.pools[p].interval, now))])
    ensures p in s2.pools && s2.allocs == s1.allocs && s2.pools == s.pools[p := s2.pools[p]]
    ensures PartlyTicked(s.pools[p], now, s2.pools[p], todo - {k})
  {
  }

  ghost predicate PartlyTicked(pool: Pool, now: int, pool': Pool, todo: set<GpuKey>) {
    && pool'.interval == pool.interval && pool'.maxSlots == pool.maxSlots && pool'.gpus.Keys == pool.gpus.Keys
    && forall k :: k in pool.gpus ==>
         pool'.gpus[k] == if k in todo then pool.gpus[k] else Tick(pool.gpus[k], pool.interval, now)
  }

  lemma ReleasedIsBalanced(g: Gpu, svc: Service, g': Gpu, interval: int)
    requires GpuReleased(g, svc, g', interval) && |g.slots| <= MAX_SLOTS && Balanced(g.slots, interval)
    ensures |g'.slots| <= MAX_SLOTS && Balanced(g'.slots, interval)
  {
    KeptOwners(g.slots, svc);
    if |Kept(g.slots, svc)| != |g.slots| {
      RebalancedIsBalanced(g.(slots := Kept(g.slots, svc)), g', interval);
    }
  }

  lemma SortedIsPriorityOrder(slots: seq<Slot>, order: seq<Slot>)
    requires multiset(order) == multiset(slots) && SortedBy(order, (s: Slot) => -s.priority)
    ensures PriorityOrder(slots, order) && |order| == |slots|
  {
    SameElements(slots, order);
    forall i, j | 0 <= i < j < |order|
      ensures order[i].priority >= order[j].priority
    {
      assert ((s: Slot) => -s.priority)(order[i]) <= ((s: Slot) => -s.priority)(order[j]);
    }
  }
}
