/** The time-slice manager on values: what each operation may do, whichever way maps are iterated and
    slots of equal priority are sorted. */
module TimesliceSpec {
  import opened Common
  import opened Capacity
  import opened Sorting
  import opened Rebalance

  datatype Gpu = Gpu(slots: seq<Slot>, current: nat, last: int, total: int)

  datatype Pool = Pool(interval: int, maxSlots: nat, gpus: map<GpuKey, Gpu>)

  datatype Allocation = Allocation(gpu: GpuKey, slotId: string)

  datatype State = State(pools: map<string, Pool>, allocs: map<Service, seq<Allocation>>)

  /** What one `Allocate` is asked: `gpus` are the devices of the pool, in the pool's order. */
  datatype Request = Request(pool: string, service: Service, count: nat, gpus: seq<GpuKey>, now: int)

  const DEFAULT_INTERVAL := 100_000_000
  const MAX_SLOTS := 10

  function SlotId(svc: Service, n: nat): string {
    Numbered("slot-" + svc.name + "-" + svc.ns, n)
  }

  // ---------------------------------------------------------------- one GPU

  ghost predicate PriorityOrder(slots: seq<Slot>, order: seq<Slot>) {
    multiset(order) == multiset(slots) && forall i, j :: 0 <= i < j < |order| ==> order[i].priority >= order[j].priority
  }

  ghost predicate Rebalanced(g: Gpu, g': Gpu, interval: int) {
    if g.slots == [] then g' == g
    else exists order :: order != [] && PriorityOrder(g.slots, order)
                         && g' == g.(slots := Assign(order, interval), total := Allocated(order, interval))
  }

  function NewSlot(svc: Service, n: nat, interval: int): Slot {
    Slot(SlotId(svc, n), svc, 0, TruncDiv(interval, n + 1), 0, true)
  }

  function WithNewSlot(g: Gpu, svc: Service, interval: int): Gpu {
    g.(slots := g.slots + [NewSlot(svc, |g.slots|, interval)])
  }

  function Kept(slots: seq<Slot>, svc: Service): seq<Slot> {
    Filter(slots, (s: Slot) => s.owner != svc)
  }

  ghost predicate GpuReleased(g: Gpu, svc: Service, g': Gpu, interval: int) {
    if |Kept(g.slots, svc)| == |g.slots| then g' == g
    else Rebalanced(g.(slots := Kept(g.slots, svc)), g', interval)
  }

  /** The scheduler's visit: on to the next slot once the current one has had its part of the interval. */
  function Tick(g: Gpu, interval: int, now: int): Gpu {
    if g.slots != [] && now - g.last >= TruncDiv(interval, |g.slots|) then
      g.(current := (g.current + 1) % |g.slots|, last := now)
    else g
  }

  /** The visit in numbers: an interval shorter than nothing is divided as if it were turned around. */
  lemma TickIs(g: Gpu, interval: int, now: int)
    ensures var n := |g.slots|;
            if n > 0 && now - g.last >= (if interval >= 0 then interval / n else -(-interval / n)) then
              Tick(g, interval, now) == Gpu(g.slots, (g.current + 1) % n, now, g.total)
            else Tick(g, interval, now) == g
  {
    if g.slots != [] {
      TruncDivIs(interval, |g.slots|);
    }
  }

  /** A switch starts a new share: no visit before that is over changes anything. */
  lemma SwitchStartsShare(g: Gpu, interval: nat, now: int, later: int)
    requires Tick(g, interval, now) != g && later - now < interval / |g.slots|
    ensures Tick(Tick(g, interval, now), interval, later) == Tick(g, interval, now)
  {
    TickIs(g, interval, now);
    TickIs(Tick(g, interval, now), interval, later);
  }

  // ---------------------------------------------------------------- what a slot is

  /** What makes a slot the one it is; where it lies in the interval is up to the rebalancing. */
  datatype Identity = Identity(id: string, owner: Service, priority: int, active: bool)

  ghost function Identities(slots: seq<Slot>): seq<Identity> {
    Mapped(slots, (s: Slot) => Identity(s.id, s.owner, s.priority, s.active))
  }

  lemma {:induction false} AssignKeepsElements(order: seq<Slot>, interval: int)
    requires order != []
    ensures |Assign(order, interval)| == |order|
    ensures forall i :: 0 <= i < |order| ==>
              var a := Assign(order, interval)[i];
              && a.owner == order[i].owner && a.id == order[i].id && a.priority == order[i].priority
              && a.active == order[i].active
  {
  }

  /** Rebalancing rearranges slots and neither adds, drops nor changes any; whose turn it is stays. */
  lemma RebalancedKeepsSlots(g: Gpu, g': Gpu, interval: int)
    requires Rebalanced(g, g', interval)
    ensures multiset(Identities(g'.slots)) == multiset(Identities(g.slots))
    ensures g'.current == g.current && g'.last == g.last
  {
    if g.slots != [] {
      var order: seq<Slot> :| order != [] && PriorityOrder(g.slots, order) && g'.slots == Assign(order, interval);
      MappedPermutation(g.slots, order, (s: Slot) => Identity(s.id, s.owner, s.priority, s.active));
      AssignKeepsElements(order, interval);
      assert Identities(g'.slots) == Identities(order);
    }
  }

  lemma {:induction false} KeptIdentities(slots: seq<Slot>, svc: Service, x: Identity)
    ensures multiset(Identities(Kept(slots, svc)))[x] == if x.owner == svc then 0 else multiset(Identities(slots))[x]
  {
    if slots != [] {
      var init, last := slots[..|slots| - 1], slots[|slots| - 1];
      KeptIdentities(init, svc, x);
      var f := (s: Slot) => Identity(s.id, s.owner, s.priority, s.active);
      assert slots == init + [last];
      MappedAppend(init, last, f);
      MappedAppend(Kept(init, svc), last, f);
      assert Kept(slots, svc) == if last.owner != svc then Kept(init, svc) + [last] else Kept(init, svc);
    }
  }

  /** A release takes all slots of the service and leaves every other slot as it was. */
  lemma ReleasedKeepsSlots(g: Gpu, svc: Service, g': Gpu, interval: int, x: Identity)
    requires GpuReleased(g, svc, g', interval)
    ensures multiset(Identities(g'.slots))[x] == if x.owner == svc then 0 else multiset(Identities(g.slots))[x]
    ensures g'.current == g.current && g'.last == g.last
  {
    KeptIdentities(g.slots, svc, x);
    if |Kept(g.slots, svc)| == |g.slots| {
      FilterSameLength(g.slots, (s: Slot) => s.owner != svc);
    } else {
      RebalancedKeepsSlots(g.(slots := Kept(g.slots, svc)), g', interval);
    }
  }

  // ---------------------------------------------------------------- allocation

  ghost function Loads(pool: Pool): map<GpuKey, int> {
    map k | k in pool.gpus :: |pool.gpus[k].slots|
  }

  /** The slots that a pool can still take. */
  ghost function RoomIn(pool: Pool, gpus: seq<GpuKey>): int {
    Room(Loads(pool), pool.maxSlots, Devices(gpus))
  }

  ghost predicate HasRoom(pool: Pool, k: GpuKey) {
    k in pool.gpus && |pool.gpus[k].slots| < pool.maxSlots
  }

  /** A GPU that the search may come up with: any configured one with room, or, if there is none, the
      first device of the pool that is not configured. */
  ghost predicate Chosen(pool: Pool, gpus: seq<GpuKey>, k: GpuKey) {
    || HasRoom(pool, k)
    || (&& (forall j :: !HasRoom(pool, j))
        && exists i :: && 0 <= i < |gpus| && gpus[i] == k && k !in pool.gpus
                       && forall j :: 0 <= j < i ==> gpus[j] in pool.gpus)
  }

  ghost predicate Exhausted(pool: Pool, gpus: seq<GpuKey>) {
    (forall j :: !HasRoom(pool, j)) && forall k :: k in gpus ==> k in pool.gpus
  }

  function GpuAt(pool: Pool, k: GpuKey, now: int): Gpu {
    if k in pool.gpus then pool.gpus[k] else Gpu([], 0, now, 0)
  }

  function AllocsOf(s: State, svc: Service): seq<Allocation> {
    if svc in s.allocs then s.allocs[svc] else []
  }

  function WithGpu(pool: Pool, k: GpuKey, g: Gpu): Pool {
    pool.(gpus := pool.gpus[k := g])
  }

  /** One slot more for the service, on GPU `k`, which then is `g`. */
  ghost predicate SlotAdded(s: State, r: Request, k: GpuKey, g: Gpu, s': State) {
    && r.pool in s.pools
    && var pool := s.pools[r.pool];
       var was := GpuAt(pool, k, r.now);
       && Chosen(pool, r.gpus, k)
       && Rebalanced(WithNewSlot(was, r.service, pool.interval), g, pool.interval)
       && s' == State(s.pools[r.pool := WithGpu(pool, k, g)],
                      s.allocs[r.service := AllocsOf(s, r.service) + [Allocation(k, SlotId(r.service, |was.slots|))]])
  }

  ghost predicate AllocStep(s: State, r: Request, s': State) {
    exists k, g :: SlotAdded(s, r, k, g, s')
  }

  ghost predicate AllocTrace(trace: seq<State>, r: Request) {
    trace != [] && forall i :: 0 <= i < |trace| - 1 ==> AllocStep(trace[i], r, trace[i + 1])
  }

  ghost predicate SameShape(s: State, s': State) {
    && s'.pools.Keys == s.pools.Keys
    && forall p :: p in s.pools ==>
         && s'.pools[p].interval == s.pools[p].interval && s'.pools[p].maxSlots == s.pools[p].maxSlots
         && s'.pools[p].gpus.Keys == s.pools[p].gpus.Keys
  }

  ghost predicate Released(s: State, svc: Service, s': State) {
    && SameShape(s, s')
    && s'.allocs == s.allocs - {svc}
    && forall p, k :: p in s.pools && k in s.pools[p].gpus ==>
         GpuReleased(s.pools[p].gpus[k], svc, s'.pools[p].gpus[k], s.pools[p].interval)
  }

  /** Success takes one step a slot; failure comes when nothing is left, and releases the service. */
  ghost predicate AllocateVia(s: State, r: Request, trace: seq<State>, s': State, ok: bool) {
    if r.pool !in s.pools then !ok && s' == s
    else
      && AllocTrace(trace, r) && trace[0] == s && |trace| <= r.count + 1
      && r.pool in trace[|trace| - 1].pools
      && if ok then |trace| == r.count + 1 && s' == trace[|trace| - 1]
         else |trace| <= r.count && Exhausted(trace[|trace| - 1].pools[r.pool], r.gpus)
              && Released(trace[|trace| - 1], r.service, s')
  }

  // ---------------------------------------------------------------- the invariant

  /** The slots are an assignment of the interval in priority order. */
  ghost predicate Balanced(slots: seq<Slot>, interval: int) {
    slots != [] ==> exists order :: order != [] && PriorityOrder(order, order) && slots == Assign(order, interval)
  }

  ghost predicate PoolValid(pool: Pool) {
    && pool.maxSlots == MAX_SLOTS
    && forall k :: k in pool.gpus ==>
         |pool.gpus[k].slots| <= MAX_SLOTS && Balanced(pool.gpus[k].slots, pool.interval)
  }

  ghost predicate PoolsValid(s: State) {
    forall p :: p in s.pools ==> PoolValid(s.pools[p])
  }

  /** No configured GPU can take another slot. */
  ghost predicate AllFull(pool: Pool) {
    forall k :: k in pool.gpus ==> |pool.gpus[k].slots| >= 10
  }

  /** A configured GPU with fewer than ten slots comes first; without one, the first device of the list that is not
      configured. */
  lemma ChosenIs(pool: Pool, gpus: seq<GpuKey>, k: GpuKey)
    requires PoolValid(pool) && Chosen(pool, gpus, k)
    ensures k in pool.gpus ==> |pool.gpus[k].slots| < 10
    ensures k !in pool.gpus ==>
              && AllFull(pool)
              && exists i :: 0 <= i < |gpus| && gpus[i] == k && forall j :: 0 <= j < i ==> gpus[j] in pool.gpus
  {
    if k !in pool.gpus {
      assert forall j :: j in pool.gpus ==> !HasRoom(pool, j);
    }
  }

  lemma ExhaustedIs(pool: Pool, gpus: seq<GpuKey>)
    requires PoolValid(pool) && Exhausted(pool, gpus)
    ensures AllFull(pool) && forall k :: k in gpus ==> k in pool.gpus
  {
    assert forall j :: j in pool.gpus ==> !HasRoom(pool, j);
  }

  lemma RebalancedIsBalanced(g: Gpu, g': Gpu, interval: int)
    requires Rebalanced(g, g', interval)
    ensures |g'.slots| == |g.slots| && Balanced(g'.slots, interval)
    ensures g.slots != [] ==> End(g'.slots[|g.slots| - 1]) == Max(g'.total, interval)
  {
    if g.slots != [] {
      var order: seq<Slot> :| && order != [] && PriorityOrder(g.slots, order)
                              && g' == g.(slots := Assign(order, interval), total := Allocated(order, interval));
      AssignKeepsElements(order, interval);
      SameElements(g.slots, order);
      assert PriorityOrder(order, order);
      AssignTiles(order, interval);
    }
  }

  /** What a GPU has allocated is where its last slot would end without what is left of the interval. */
  lemma RebalancedTotal(g: Gpu, g': Gpu, interval: int)
    requires Rebalanced(g, g', interval) && g.slots != []
    ensures |g'.slots| == |g.slots|
    ensures var last := g'.slots[|g.slots| - 1];
            g'.total == last.start + Length(interval, last.priority, TotalPriority(g'.slots))
  {
    var order: seq<Slot> :| && order != [] && PriorityOrder(g.slots, order)
                            && g' == g.(slots := Assign(order, interval), total := Allocated(order, interval));
    SameElements(g.slots, order);
    AssignKeepsElements(order, interval);
    TotalPrioritySame(g'.slots, order);
    AllocatedIs(order, interval);
  }

  /** In every balanced GPU the slots come in priority order, follow each other from zero, are none of
      them too short, and reach the end of the interval. */
  lemma BalancedTiles(slots: seq<Slot>, interval: int)
    requires Balanced(slots, interval) && slots != []
    ensures Contiguous(slots) && End(slots[|slots| - 1]) >= interval
    ensures forall i, j :: 0 <= i < j < |slots| ==> slots[i].priority >= slots[j].priority
  {
    var order: seq<Slot> :| order != [] && PriorityOrder(order, order) && slots == Assign(order, interval);
    AssignTiles(order, interval);
    AssignKeepsElements(order, interval);
  }

  /** Default slots of one GPU fill the interval exactly if and only if it has the minimum for each. */
  lemma BalancedDefaultsFillIff(slots: seq<Slot>, interval: int)
    requires Balanced(slots, interval) && slots != [] && |slots| <= MAX_SLOTS
    requires forall i :: 0 <= i < |slots| ==> slots[i].priority == 0
    ensures End(slots[|slots| - 1]) == interval <==> interval >= |slots| * 10_000_000
  {
    var order: seq<Slot> :| order != [] && PriorityOrder(order, order) && slots == Assign(order, interval);
    AssignKeepsElements(order, interval);
    forall i | 0 <= i < |order|
      ensures order[i].priority == 0
    {
      assert slots[i].priority == order[i].priority;
    }
    DefaultSlotsFillIff(order, interval);
  }
}
