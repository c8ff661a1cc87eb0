/** What an allocation comes to: when it succeeds, what it adds, and what a failure leaves behind. */
module TimesliceAlloc {
  import opened Common
  import opened MapSums
  import opened Capacity
  import opened Sorting
  import opened Rebalance
  import opened TimesliceSpec

  // ---------------------------------------------------------------- room

  lemma ChosenIsPlaceable(pool: Pool, gpus: seq<GpuKey>, k: GpuKey)
    requires PoolValid(pool) && Chosen(pool, gpus, k)
    ensures Bounded(Loads(pool), pool.maxSlots) && Placeable(Loads(pool), pool.maxSlots, Devices(gpus), k)
  {
    if !HasRoom(pool, k) {
      forall j | j in Loads(pool)
        ensures Loads(pool)[j] >= pool.maxSlots
      {
        assert !HasRoom(pool, j);
      }
    }
  }

  lemma PlacingLoads(pool: Pool, k: GpuKey, g: Gpu, now: int)
    requires |g.slots| == |GpuAt(pool, k, now).slots| + 1
    ensures Loads(WithGpu(pool, k, g)) == PlacedOn(Loads(pool), k)
  {
  }

  lemma PlacingTakesRoom(pool: Pool, gpus: seq<GpuKey>, k: GpuKey, g: Gpu, now: int)
    requires PoolValid(pool) && Chosen(pool, gpus, k)
    requires |g.slots| == |GpuAt(pool, k, now).slots| + 1 && Balanced(g.slots, pool.interval)
    ensures PoolValid(WithGpu(pool, k, g))
    ensures RoomIn(WithGpu(pool, k, g), gpus) == RoomIn(pool, gpus) - 1
  {
    ChosenIsPlaceable(pool, gpus, k);
    RoomPlace(Loads(pool), pool.maxSlots, Devices(gpus), k);
    PlacingLoads(pool, k, g, now);
  }

  /** A step takes one unit of room, and leaves a valid pool. */
  lemma StepTakesRoom(s: State, r: Request, k: GpuKey, g: Gpu, s': State)
    requires PoolsValid(s) && SlotAdded(s, r, k, g, s')
    ensures PoolsValid(s') && SameOtherPools(s, r.pool, s')
    ensures RoomIn(s'.pools[r.pool], r.gpus) == RoomIn(s.pools[r.pool], r.gpus) - 1
  {
    var pool := s.pools[r.pool];
    var was := GpuAt(pool, k, r.now);
    assert PoolValid(pool);
    RebalancedIsBalanced(WithNewSlot(was, r.service, pool.interval), g, pool.interval);
    PlacingTakesRoom(pool, r.gpus, k, g, r.now);
    assert s'.pools[r.pool] == WithGpu(pool, k, g);
  }

  /** The step adds one slot, of default priority and active, and changes no other; a GPU that is set up for it
      begins its first share then. */
  lemma StepAddsSlot(s: State, r: Request, k: GpuKey, g: Gpu, s': State)
    requires SlotAdded(s, r, k, g, s')
    ensures var known := k in s.pools[r.pool].gpus;
            var was := if known then s.pools[r.pool].gpus[k].slots else [];
            var id := "slot-" + r.service.name + "-" + r.service.ns + "-" + Decimal(|was|);
            && s'.pools[r.pool].gpus == s.pools[r.pool].gpus[k := g]
            && multiset(Identities(g.slots)) == multiset(Identities(was)) + multiset{Identity(id, r.service, 0, true)}
            && g.current == (if known then s.pools[r.pool].gpus[k].current else 0)
            && g.last == (if known then s.pools[r.pool].gpus[k].last else r.now)
            && r.service in s'.allocs && s'.allocs[r.service] == AllocsOf(s, r.service) + [Allocation(k, id)]
  {
    var pool := s.pools[r.pool];
    var was := GpuAt(pool, k, r.now);
    var f := (sl: Slot) => Identity(sl.id, sl.owner, sl.priority, sl.active);
    RebalancedKeepsSlots(WithNewSlot(was, r.service, pool.interval), g, pool.interval);
    MappedAppend(was.slots, NewSlot(r.service, |was.slots|, pool.interval), f);
    assert s'.pools[r.pool] == WithGpu(pool, k, g);
  }

  ghost predicate SameOtherPools(s: State, name: string, s': State) {
    && name in s.pools && s'.pools.Keys == s.pools.Keys
    && (forall p :: p in s.pools && p != name ==> s'.pools[p] == s.pools[p])
    && s'.pools[name].interval == s.pools[name].interval && s'.pools[name].maxSlots == s.pools[name].maxSlots
    && s.pools[name].gpus.Keys <= s'.pools[name].gpus.Keys
  }

  lemma RoomIffNotExhausted(pool: Pool, gpus: seq<GpuKey>)
    requires PoolValid(pool)
    ensures RoomIn(pool, gpus) >= 0
    ensures RoomIn(pool, gpus) == 0 <==> Exhausted(pool, gpus)
  {
    var loads, devices := Loads(pool), Devices(gpus);
    assert Bounded(loads, pool.maxSlots);
    RoomIffPlaceable(loads, pool.maxSlots, devices);
    if !Exhausted(pool, gpus) {
      if j :| HasRoom(pool, j) {
        assert Placeable(loads, pool.maxSlots, devices, j);
      } else {
        var k :| k in gpus && k !in pool.gpus;
        assert forall j :: j in loads ==> !HasRoom(pool, j);
        assert Placeable(loads, pool.maxSlots, devices, k);
      }
    } else {
      forall k
        ensures !Placeable(loads, pool.maxSlots, devices, k)
      {
        assert !HasRoom(pool, k);
      }
    }
  }

  lemma {:induction false} TraceTakesRoom(trace: seq<State>, r: Request, n: nat)
    requires AllocTrace(trace, r) && n < |trace|
    requires PoolsValid(trace[0]) && r.pool in trace[0].pools
    ensures PoolsValid(trace[n]) && SameOtherPools(trace[0], r.pool, trace[n])
    ensures RoomIn(trace[n].pools[r.pool], r.gpus) == RoomIn(trace[0].pools[r.pool], r.gpus) - n
    decreases n
  {
    if n > 0 {
      TraceTakesRoom(trace, r, n - 1);
      assert AllocStep(trace[n - 1], r, trace[n]);
      var k, g :| SlotAdded(trace[n - 1], r, k, g, trace[n]);
      StepTakesRoom(trace[n - 1], r, k, g, trace[n]);
    }
  }

  /** An allocation succeeds if and only if the pool can still take as many slots as are asked for,
      whatever GPUs the search comes up with. */
  lemma AllocateSucceedsIff(s: State, r: Request, trace: seq<State>, s': State, ok: bool)
    requires PoolsValid(s) && AllocateVia(s, r, trace, s', ok)
    ensures ok <==> r.pool in s.pools && r.count <= RoomIn(s.pools[r.pool], r.gpus)
  {
    if r.pool in s.pools {
      var n := |trace| - 1;
      TraceTakesRoom(trace, r, n);
      RoomIffNotExhausted(trace[n].pools[r.pool], r.gpus);
    }
  }

  // ---------------------------------------------------------------- the index

  function SlotsAt(pool: Pool, k: GpuKey): seq<Slot> {
    if k in pool.gpus then pool.gpus[k].slots else []
  }

  function Is(svc: Service, id: string): Slot -> bool {
    (s: Slot) => s.owner == svc && s.id == id
  }

  ghost function CountAt(pool: Pool, svc: Service, k: GpuKey, id: string): nat {
    CountIf(SlotsAt(pool, k), Is(svc, id))
  }

  ghost function Counts(s: State, svc: Service, k: GpuKey, id: string): map<string, int> {
    map p | p in s.pools :: CountAt(s.pools[p], svc, k, id)
  }

  /** How many slots with this owner, device and id there are, over all pools. */
  ghost function SlotCount(s: State, svc: Service, k: GpuKey, id: string): int {
    Sum(Counts(s, svc, k, id))
  }

  ghost function AllocCount(s: State, svc: Service, k: GpuKey, id: string): int {
    multiset(AllocsOf(s, svc))[Allocation(k, id)]
  }

  /** For every service, the allocations on record are, as a multiset of device and slot id, exactly the
      slots there are. */
  ghost predicate IndexAgrees(s: State) {
    forall svc, k, id :: AllocCount(s, svc, k, id) == SlotCount(s, svc, k, id)
  }

  lemma RebalancedCount(g: Gpu, g': Gpu, interval: int, svc: Service, id: string)
    requires Rebalanced(g, g', interval)
    ensures CountIf(g'.slots, Is(svc, id)) == CountIf(g.slots, Is(svc, id))
  {
    if g.slots != [] {
      var order: seq<Slot> :| order != [] && PriorityOrder(g.slots, order) && g'.slots == Assign(order, interval);
      CountIfPermutation(g.slots, order, Is(svc, id));
      AssignKeepsElements(order, interval);
      CountIfPointwise(order, g'.slots, Is(svc, id));
    }
  }

  lemma OnePoolCount(s: State, s': State, name: string, svc: Service, k: GpuKey, id: string)
    requires name in s.pools && name in s'.pools && s'.pools == s.pools[name := s'.pools[name]]
    ensures SlotCount(s', svc, k, id)
         == SlotCount(s, svc, k, id) - CountAt(s.pools[name], svc, k, id) + CountAt(s'.pools[name], svc, k, id)
  {
    var counts := Counts(s, svc, k, id);
    SumInsert(counts, name, CountAt(s'.pools[name], svc, k, id));
    assert Counts(s', svc, k, id) == counts[name := CountAt(s'.pools[name], svc, k, id)];
  }

  /** A step adds one slot and one record, and they match. */
  lemma StepCounts(s: State, r: Request, k: GpuKey, g: Gpu, s': State, svc: Service, j: GpuKey, id: string)
    requires SlotAdded(s, r, k, g, s')
    ensures SlotCount(s', svc, j, id) - SlotCount(s, svc, j, id)
         == AllocCount(s', svc, j, id) - AllocCount(s, svc, j, id)
    ensures svc != r.service ==> SlotCount(s', svc, j, id) == SlotCount(s, svc, j, id)
  {
    var pool := s.pools[r.pool];
    var was := GpuAt(pool, k, r.now);
    var slot := NewSlot(r.service, |was.slots|, pool.interval);
    OnePoolCount(s, s', r.pool, svc, j, id);
    if j == k {
      RebalancedCount(WithNewSlot(was, r.service, pool.interval), g, pool.interval, svc, id);
      CountIfAppend(was.slots, slot, Is(svc, id));
      assert SlotsAt(pool, k) == was.slots;
    }
    assert AllocsOf(s', svc)
        == if svc == r.service then AllocsOf(s, svc) + [Allocation(k, slot.id)] else AllocsOf(s, svc);
  }

  lemma StepKeepsIndex(s: State, r: Request, s': State)
    requires IndexAgrees(s) && AllocStep(s, r, s')
    ensures IndexAgrees(s')
  {
    var k, g :| SlotAdded(s, r, k, g, s');
    forall svc, j, id
      ensures AllocCount(s', svc, j, id) == SlotCount(s', svc, j, id)
    {
      StepCounts(s, r, k, g, s', svc, j, id);
      assert AllocCount(s, svc, j, id) == SlotCount(s, svc, j, id);
    }
  }

  lemma {:induction false} TraceKeepsIndex(trace: seq<State>, r: Request, n: nat)
    requires AllocTrace(trace, r) && n < |trace| && IndexAgrees(trace[0])
    ensures IndexAgrees(trace[n])
    decreases n
  {
    if n > 0 {
      TraceKeepsIndex(trace, r, n - 1);
      assert AllocStep(trace[n - 1], r, trace[n]);
      StepKeepsIndex(trace[n - 1], r, trace[n]);
    }
  }

  /** Steps for one service leave every other service's slots and records alone, and add one record a
      step to its own. */
  lemma {:induction false} TraceCounts(trace: seq<State>, r: Request, n: nat)
    requires AllocTrace(trace, r) && n < |trace|
    ensures |AllocsOf(trace[n], r.service)| == |AllocsOf(trace[0], r.service)| + n
    ensures forall svc :: svc != r.service ==> AllocsOf(trace[n], svc) == AllocsOf(trace[0], svc)
    ensures forall svc, k, id :: svc != r.service ==> SlotCount(trace[n], svc, k, id) == SlotCount(trace[0], svc, k, id)
    decreases n
  {
    if n > 0 {
      TraceCounts(trace, r, n - 1);
      assert AllocStep(trace[n - 1], r, trace[n]);
      var k, g :| SlotAdded(trace[n - 1], r, k, g, trace[n]);
      forall svc, j, id | svc != r.service
        ensures SlotCount(trace[n], svc, j, id) == SlotCount(trace[0], svc, j, id)
      {
        StepCounts(trace[n - 1], r, k, g, trace[n], svc, j, id);
      }
    }
  }

  // ---------------------------------------------------------------- release

  lemma ReleasedCountAt(g: Gpu, svc: Service, g': Gpu, interval: int, other: Service, id: string)
    requires GpuReleased(g, svc, g', interval)
    ensures CountIf(g'.slots, Is(other, id)) == if other == svc then 0 else CountIf(g.slots, Is(other, id))
  {
    var keep := (s: Slot) => s.owner != svc;
    FilterSameLength(g.slots, keep);
    CountIfFilter(g.slots, keep, Is(other, id));
    if |Kept(g.slots, svc)| != |g.slots| {
      RebalancedCount(g.(slots := Kept(g.slots, svc)), g', interval, other, id);
    }
  }

  /** A release takes away every slot of the service, in every pool, and no other slot. */
  lemma ReleaseCounts(s: State, svc: Service, s': State, other: Service, k: GpuKey, id: string)
    requires Released(s, svc, s')
    ensures SlotCount(s', other, k, id) == if other == svc then 0 else SlotCount(s, other, k, id)
  {
    forall p | p in s.pools
      ensures CountAt(s'.pools[p], other, k, id) == if other == svc then 0 else CountAt(s.pools[p], other, k, id)
    {
      if k in s.pools[p].gpus {
        ReleasedCountAt(s.pools[p].gpus[k], svc, s'.pools[p].gpus[k], s.pools[p].interval, other, id);
      }
    }
    if other == svc {
      SumConstant(Counts(s', other, k, id), 0);
    } else {
      assert Counts(s', other, k, id) == Counts(s, other, k, id);
    }
  }

  lemma ReleaseKeepsIndex(s: State, svc: Service, s': State)
    requires IndexAgrees(s) && Released(s, svc, s')
    ensures IndexAgrees(s')
  {
    forall other, k, id
      ensures AllocCount(s', other, k, id) == SlotCount(s', other, k, id)
    {
      ReleaseCounts(s, svc, s', other, k, id);
      assert AllocCount(s, other, k, id) == SlotCount(s, other, k, id);
    }
  }

  lemma KeptOwners(slots: seq<Slot>, svc: Service)
    ensures |Kept(slots, svc)| <= |slots|
    ensures forall x :: x in Kept(slots, svc) ==> x.owner != svc
    ensures |Kept(slots, svc)| == |slots| ==> Kept(slots, svc) == slots
  {
    FilterKeeps(slots, (s: Slot) => s.owner != svc);
    FilterSameLength(slots, (s: Slot) => s.owner != svc);
  }

  lemma ReleaseKeepsPools(s: State, svc: Service, s': State)
    requires PoolsValid(s) && Released(s, svc, s')
    ensures PoolsValid(s')
  {
    forall p, k | p in s.pools && k in s.pools[p].gpus
      ensures |s'.pools[p].gpus[k].slots| <= MAX_SLOTS && Balanced(s'.pools[p].gpus[k].slots, s.pools[p].interval)
    {
      var g, g', interval := s.pools[p].gpus[k], s'.pools[p].gpus[k], s.pools[p].interval;
      KeptOwners(g.slots, svc);
      if |Kept(g.slots, svc)| != |g.slots| {
        RebalancedIsBalanced(g.(slots := Kept(g.slots, svc)), g', interval);
      }
    }
  }

  /** A GPU without the service's slots owns none of them. */
  lemma NoSlotLeft(s: State, svc: Service, s': State, p: string, k: GpuKey, i: nat)
    requires Released(s, svc, s') && p in s'.pools && k in s'.pools[p].gpus && i < |s'.pools[p].gpus[k].slots|
    ensures s'.pools[p].gpus[k].slots[i].owner != svc
  {
    var g, g', interval := s.pools[p].gpus[k], s'.pools[p].gpus[k], s.pools[p].interval;
    KeptOwners(g.slots, svc);
    if |Kept(g.slots, svc)| != |g.slots| && Kept(g.slots, svc) != [] {
      var order: seq<Slot> :| && order != [] && PriorityOrder(Kept(g.slots, svc), order)
                              && g'.slots == Assign(order, interval);
      AssignKeepsElements(order, interval);
      SameElements(Kept(g.slots, svc), order);
      assert order[i] in order;
    }
  }

  // ---------------------------------------------------------------- the outcome

  lemma {:induction false} TraceExtendsRecords(trace: seq<State>, r: Request, n: nat)
    requires AllocTrace(trace, r) && n < |trace|
    ensures AllocsOf(trace[0], r.service) <= AllocsOf(trace[n], r.service)
    decreases n
  {
    if n > 0 {
      TraceExtendsRecords(trace, r, n - 1);
      assert AllocStep(trace[n - 1], r, trace[n]);
    }
  }

  /** Success adds exactly the slots asked for, all of them to the service, after the records it had. */
  lemma SuccessAddsExactly(s: State, r: Request, trace: seq<State>, s': State)
    requires IndexAgrees(s) && AllocateVia(s, r, trace, s', true)
    ensures IndexAgrees(s') && |AllocsOf(s', r.service)| == |AllocsOf(s, r.service)| + r.count
    ensures AllocsOf(s, r.service) <= AllocsOf(s', r.service)
    ensures forall svc, k, id :: svc != r.service ==> SlotCount(s', svc, k, id) == SlotCount(s, svc, k, id)
  {
    TraceKeepsIndex(trace, r, |trace| - 1);
    TraceCounts(trace, r, |trace| - 1);
    TraceExtendsRecords(trace, r, |trace| - 1);
  }

  /** Failure in a known pool leaves no slot and no record of the service, those of earlier allocations
      included, and every other service with the slots it had. */
  lemma FailureRollsBack(s: State, r: Request, trace: seq<State>, s': State)
    requires r.pool in s.pools && AllocateVia(s, r, trace, s', false)
    ensures r.service !in s'.allocs
    ensures forall p, k, i :: p in s'.pools && k in s'.pools[p].gpus && 0 <= i < |s'.pools[p].gpus[k].slots| ==>
              s'.pools[p].gpus[k].slots[i].owner != r.service
    ensures forall svc, k, id :: svc != r.service ==> SlotCount(s', svc, k, id) == SlotCount(s, svc, k, id)
    ensures forall svc :: svc != r.service ==> AllocsOf(s', svc) == AllocsOf(s, svc)
  {
    var last := trace[|trace| - 1];
    TraceCounts(trace, r, |trace| - 1);
    forall svc, k, id | svc != r.service
      ensures SlotCount(s', svc, k, id) == SlotCount(s, svc, k, id)
    {
      ReleaseCounts(last, r.service, s', svc, k, id);
    }
    forall p, k, i | p in s'.pools && k in s'.pools[p].gpus && 0 <= i < |s'.pools[p].gpus[k].slots|
      ensures s'.pools[p].gpus[k].slots[i].owner != r.service
    {
      NoSlotLeft(last, r.service, s', p, k, i);
    }
  }
}
