/** Whole runs of the time-slice manager, and the turns its scheduler takes. */
module TimesliceRuns {
  import opened Common
  import opened MapSums
  import opened Sorting
  import opened Rebalance
  import opened TimesliceSpec
  import opened TimesliceAlloc

  datatype Op =
    | Allocate(request: Request)
    | Release(service: Service)
    | SetPriority(id: string, priority: int32)
    | Schedule(now: int)
    | Cleanup(pool: string)
    | Configure(pool: string, timeslice: bool, millis: int32)

  const EMPTY_STATE := State(map[], map[])

  ghost predicate Idle(pool: Pool) {
    forall k :: k in pool.gpus ==> pool.gpus[k].slots == []
  }

  function NewPool(millis: int32): Pool {
    Pool(if millis == 0 then DEFAULT_INTERVAL else millis as int * 1_000_000, MAX_SLOTS, map[])
  }

  function Configured(s: State, name: string, millis: int32): State {
    s.(pools := s.pools[name := NewPool(millis)])
  }

  ghost predicate HasSlotId(s: State, id: string) {
    exists p, k, i :: p in s.pools && k in s.pools[p].gpus && 0 <= i < |s.pools[p].gpus[k].slots|
                      && s.pools[p].gpus[k].slots[i].id == id
  }

  function WithPriority(g: Gpu, i: nat, priority: int): Gpu
    requires i < |g.slots|
  {
    g.(slots := g.slots[i := g.slots[i].(priority := priority)])
  }

  /** The first slot with this id on some GPU gets the priority, and that GPU, then `g`, is rebalanced. */
  ghost predicate PriorityChanged(s: State, id: string, priority: int, p: string, k: GpuKey, i: nat, g: Gpu,
                                  s': State) {
    && p in s.pools && k in s.pools[p].gpus
    && i < |s.pools[p].gpus[k].slots| && s.pools[p].gpus[k].slots[i].id == id
    && (forall j :: 0 <= j < i ==> s.pools[p].gpus[k].slots[j].id != id)
    && Rebalanced(WithPriority(s.pools[p].gpus[k], i, priority), g, s.pools[p].interval)
    && s' == s.(pools := s.pools[p := WithGpu(s.pools[p], k, g)])
  }

  /** Outside the GPU `k` of pool `p` nothing changed, and there nothing but the slots and their total. */
  ghost predicate SameBut(s: State, p: string, k: GpuKey, s': State) {
    && s'.allocs == s.allocs && p in s.pools && k in s.pools[p].gpus && p in s'.pools && k in s'.pools[p].gpus
    && s'.pools - {p} == s.pools - {p} && s'.pools[p].gpus - {k} == s.pools[p].gpus - {k}
    && s'.pools[p].interval == s.pools[p].interval && s'.pools[p].maxSlots == s.pools[p].maxSlots
    && s'.pools[p].gpus[k].current == s.pools[p].gpus[k].current
    && s'.pools[p].gpus[k].last == s.pools[p].gpus[k].last
  }

  /** Slot number `i` there had the id and now has the priority; every other slot is as it was. */
  ghost predicate PriorityGiven(s: State, id: string, priority: int, p: string, k: GpuKey, i: nat, s': State) {
    && SameBut(s, p, k, s')
    && var before, after := Identities(s.pools[p].gpus[k].slots), Identities(s'.pools[p].gpus[k].slots);
       && i < |before| && before[i].id == id
       && multiset(after) == multiset(before[i := before[i].(priority := priority)])
  }

  ghost predicate PriorityGivenOnce(s: State, id: string, priority: int, s': State) {
    exists p, k, i :: PriorityGiven(s, id, priority, p, k, i, s')
  }

  lemma PriorityChangedGives(s: State, id: string, priority: int, p: string, k: GpuKey, i: nat, g: Gpu, s': State)
    requires PriorityChanged(s, id, priority, p, k, i, g, s')
    ensures PriorityGiven(s, id, priority, p, k, i, s')
  {
    var was := s.pools[p].gpus[k];
    RebalancedKeepsSlots(WithPriority(was, i, priority), g, s.pools[p].interval);
    var before := Identities(was.slots);
    assert Identities(WithPriority(was, i, priority).slots) == before[i := before[i].(priority := priority)];
  }

  ghost predicate PrioritySet(s: State, id: string, priority: int, s': State, ok: bool) {
    if ok then exists p, k, i, g :: PriorityChanged(s, id, priority, p, k, i, g, s')
    else !HasSlotId(s, id) && s' == s
  }

  function TickPool(pool: Pool, now: int): Pool {
    pool.(gpus := map k | k in pool.gpus :: Tick(pool.gpus[k], pool.interval, now))
  }

  function TickAll(s: State, now: int): State {
    s.(pools := map p | p in s.pools :: TickPool(s.pools[p], now))
  }

  /** Every GPU of every pool is visited once. */
  lemma TickAllVisits(s: State, now: int)
    ensures var s' := TickAll(s, now);
            && s'.allocs == s.allocs && SameShape(s, s')
            && forall p, k :: p in s.pools && k in s.pools[p].gpus ==>
                 s'.pools[p].gpus[k] == Tick(s.pools[p].gpus[k], s.pools[p].interval, now)
  {
  }

  ghost function CleanedUp(s: State, name: string): State {
    if name in s.pools && Idle(s.pools[name]) then s.(pools := s.pools - {name}) else s
  }

  ghost predicate Step(s: State, op: Op, s': State) {
    match op
    case Allocate(r) => exists trace, ok :: AllocateVia(s, r, trace, s', ok)
    case Release(svc) => Released(s, svc, s')
    case SetPriority(id, priority) =>
      PrioritySet(s, id, priority as int, s', true) || PrioritySet(s, id, priority as int, s', false)
    case Schedule(now) => s' == TickAll(s, now)
    case Cleanup(name) => s' == CleanedUp(s, name)
    case Configure(name, timeslice, millis) => s' == if timeslice then Configured(s, name, millis) else s
  }

  /** Runs do not configure a pool again while it has slots. */
  ghost predicate Orderly(s: State, op: Op) {
    op.Configure? && op.timeslice && op.pool in s.pools ==> Idle(s.pools[op.pool])
  }

  ghost predicate IsRun(states: seq<State>, ops: seq<Op>) {
    && |states| == |ops| + 1 && states[0] == EMPTY_STATE
    && forall i :: 0 <= i < |ops| ==> Step(states[i], ops[i], states[i + 1]) && Orderly(states[i], ops[i])
  }

  // ---------------------------------------------------------------- the invariant

  lemma IdlePoolCounts(pool: Pool, svc: Service, k: GpuKey, id: string)
    requires Idle(pool)
    ensures CountAt(pool, svc, k, id) == 0
  {
  }

  lemma AllocateKeepsPools(s: State, r: Request, trace: seq<State>, s': State, ok: bool)
    requires PoolsValid(s) && AllocateVia(s, r, trace, s', ok)
    ensures PoolsValid(s')
  {
    if r.pool in s.pools {
      TraceTakesRoom(trace, r, |trace| - 1);
      if !ok {
        ReleaseKeepsPools(trace[|trace| - 1], r.service, s');
      }
    }
  }

  lemma AllocateKeepsIndex(s: State, r: Request, trace: seq<State>, s': State, ok: bool)
    requires IndexAgrees(s) && AllocateVia(s, r, trace, s', ok)
    ensures IndexAgrees(s')
  {
    if r.pool in s.pools {
      TraceKeepsIndex(trace, r, |trace| - 1);
      if !ok {
        ReleaseKeepsIndex(trace[|trace| - 1], r.service, s');
      }
    }
  }

  lemma PriorityKeepsPools(s: State, id: string, priority: int, p: string, k: GpuKey, i: nat, g: Gpu, s': State)
    requires PoolsValid(s) && PriorityChanged(s, id, priority, p, k, i, g, s')
    ensures PoolsValid(s')
  {
    assert PoolValid(s.pools[p]);
    RebalancedIsBalanced(WithPriority(s.pools[p].gpus[k], i, priority), g, s.pools[p].interval);
  }

  lemma PriorityKeepsIndex(s: State, id: string, priority: int, p: string, k: GpuKey, i: nat, g: Gpu, s': State)
    requires IndexAgrees(s) && PriorityChanged(s, id, priority, p, k, i, g, s')
    ensures IndexAgrees(s')
  {
    var was := s.pools[p].gpus[k];
    forall svc, j, slotId
      ensures AllocCount(s', svc, j, slotId) == SlotCount(s', svc, j, slotId)
    {
      assert AllocCount(s, svc, j, slotId) == SlotCount(s, svc, j, slotId);
      OnePoolCount(s, s', p, svc, j, slotId);
      RebalancedCount(WithPriority(was, i, priority), g, s.pools[p].interval, svc, slotId);
      CountIfPointwise(was.slots, WithPriority(was, i, priority).slots, Is(svc, slotId));
    }
  }

  lemma ScheduleKeepsPools(s: State, now: int)
    requires PoolsValid(s)
    ensures PoolsValid(TickAll(s, now))
  {
    forall p | p in s.pools
      ensures PoolValid(TickPool(s.pools[p], now))
    {
      assert PoolValid(s.pools[p]);
    }
  }

  lemma ScheduleKeepsIndex(s: State, now: int)
    requires IndexAgrees(s)
    ensures IndexAgrees(TickAll(s, now))
  {
    var s' := TickAll(s, now);
    forall svc, k, id
      ensures AllocCount(s', svc, k, id) == SlotCount(s', svc, k, id)
    {
      assert AllocCount(s, svc, k, id) == SlotCount(s, svc, k, id);
      assert Counts(s', svc, k, id) == Counts(s, svc, k, id);
    }
  }

  lemma CleanupKeepsIndex(s: State, name: string)
    requires IndexAgrees(s)
    ensures IndexAgrees(CleanedUp(s, name))
  {
    if name in s.pools && Idle(s.pools[name]) {
      var s' := CleanedUp(s, name);
      forall svc, k, id
        ensures AllocCount(s', svc, k, id) == SlotCount(s', svc, k, id)
      {
        assert AllocCount(s, svc, k, id) == SlotCount(s, svc, k, id);
        IdlePoolCounts(s.pools[name], svc, k, id);
        SumRemove(Counts(s, svc, k, id), name);
        assert Counts(s', svc, k, id) == Counts(s, svc, k, id) - {name};
      }
    }
  }

  lemma ConfigureCounts(s: State, name: string, millis: int32, svc: Service, k: GpuKey, id: string)
    ensures SlotCount(Configured(s, name, millis), svc, k, id)
         == SlotCount(s, svc, k, id) - if name in s.pools then CountAt(s.pools[name], svc, k, id) else 0
  {
    var s' := Configured(s, name, millis);
    IdlePoolCounts(NewPool(millis), svc, k, id);
    SumInsert(Counts(s, svc, k, id), name, 0);
    assert Counts(s', svc, k, id) == Counts(s, svc, k, id)[name := 0];
  }

  lemma {:induction false} CountsThatOne<T>(xs: seq<T>, i: nat, p: T -> bool)
    requires i < |xs| && p(xs[i])
    ensures CountIf(xs, p) > 0
  {
    if i < |xs| - 1 {
      CountsThatOne(xs[..|xs| - 1], i, p);
    }
  }

  /** Configuring a pool that exists forgets its slots but not the records of them: the index still agrees
      exactly when there were none. */
  lemma ReconfigureKeepsIndexIff(s: State, name: string, millis: int32)
    requires IndexAgrees(s) && name in s.pools
    ensures IndexAgrees(Configured(s, name, millis)) <==> Idle(s.pools[name])
  {
    var s' := Configured(s, name, millis);
    if Idle(s.pools[name]) {
      ConfigureIdleKeepsIndex(s, name, millis);
    } else {
      var k :| k in s.pools[name].gpus && s.pools[name].gpus[k].slots != [];
      var slot := s.pools[name].gpus[k].slots[0];
      assert AllocCount(s, slot.owner, k, slot.id) == SlotCount(s, slot.owner, k, slot.id);
      ConfigureCounts(s, name, millis, slot.owner, k, slot.id);
      CountsThatOne(s.pools[name].gpus[k].slots, 0, Is(slot.owner, slot.id));
      assert AllocCount(s', slot.owner, k, slot.id) != SlotCount(s', slot.owner, k, slot.id);
    }
  }

  lemma ConfigureIdleKeepsIndex(s: State, name: string, millis: int32)
    requires IndexAgrees(s) && (name in s.pools ==> Idle(s.pools[name]))
    ensures IndexAgrees(Configured(s, name, millis))
  {
    var s' := Configured(s, name, millis);
    forall svc, k, id
      ensures AllocCount(s', svc, k, id) == SlotCount(s', svc, k, id)
    {
      assert AllocCount(s, svc, k, id) == SlotCount(s, svc, k, id);
      ConfigureCounts(s, name, millis, svc, k, id);
      if name in s.pools {
        IdlePoolCounts(s.pools[name], svc, k, id);
      }
    }
  }

  lemma StepKeepsPools(s: State, op: Op, s': State)
    requires PoolsValid(s) && Step(s, op, s')
    ensures PoolsValid(s')
  {
    match op {
      case Allocate(r) =>
        var trace, ok :| AllocateVia(s, r, trace, s', ok);
        AllocateKeepsPools(s, r, trace, s', ok);
      case Release(svc) => ReleaseKeepsPools(s, svc, s');
      case SetPriority(id, priority) =>
        if PrioritySet(s, id, priority as int, s', true) {
          var p, k, i, g :| PriorityChanged(s, id, priority as int, p, k, i, g, s');
          PriorityKeepsPools(s, id, priority as int, p, k, i, g, s');
        }
      case Schedule(now) => ScheduleKeepsPools(s, now);
      case Cleanup(_) =>
      case Configure(_, _, _) =>
    }
  }

  lemma StepKeepsRecords(s: State, op: Op, s': State)
    requires IndexAgrees(s) && Step(s, op, s') && Orderly(s, op)
    ensures IndexAgrees(s')
  {
    match op {
      case Allocate(r) =>
        var trace, ok :| AllocateVia(s, r, trace, s', ok);
        AllocateKeepsIndex(s, r, trace, s', ok);
      case Release(svc) => ReleaseKeepsIndex(s, svc, s');
      case SetPriority(id, priority) =>
        if PrioritySet(s, id, priority as int, s', true) {
          var p, k, i, g :| PriorityChanged(s, id, priority as int, p, k, i, g, s');
          PriorityKeepsIndex(s, id, priority as int, p, k, i, g, s');
        }
      case Schedule(now) => ScheduleKeepsIndex(s, now);
      case Cleanup(name) => CleanupKeepsIndex(s, name);
      case Configure(name, timeslice, millis) =>
        if timeslice {
          ConfigureIdleKeepsIndex(s, name, millis);
        }
    }
  }

  lemma EmptyIndexAgrees()
    ensures IndexAgrees(EMPTY_STATE)
  {
    forall svc, k, id
      ensures AllocCount(EMPTY_STATE, svc, k, id) == SlotCount(EMPTY_STATE, svc, k, id)
    {
      assert Counts(EMPTY_STATE, svc, k, id) == map[];
    }
  }

  /** In every run the records agree with the slots, no GPU has more slots than it may, and every GPU's
      slots are an assignment of its interval in priority order. */
  lemma {:induction false} RunInvariant(states: seq<State>, ops: seq<Op>, n: nat)
    requires IsRun(states, ops) && n < |states|
    ensures PoolsValid(states[n]) && IndexAgrees(states[n])
    ensures forall p, k :: p in states[n].pools && k in states[n].pools[p].gpus ==>
                             |states[n].pools[p].gpus[k].slots| <= 10
  {
    if n == 0 {
      EmptyIndexAgrees();
    } else {
      RunInvariant(states, ops, n - 1);
      StepKeepsPools(states[n - 1], ops[n - 1], states[n]);
      StepKeepsRecords(states[n - 1], ops[n - 1], states[n]);
    }
  }

  /** Wherever a run gets to: default slots on a GPU with an interval of a hundred milliseconds or more
      fill it exactly, one after the other. */
  lemma DefaultSlotsTile(states: seq<State>, ops: seq<Op>, n: nat, p: string, k: GpuKey)
    requires IsRun(states, ops) && n < |states|
    requires p in states[n].pools && k in states[n].pools[p].gpus && states[n].pools[p].gpus[k].slots != []
    requires forall i :: 0 <= i < |states[n].pools[p].gpus[k].slots| ==>
               states[n].pools[p].gpus[k].slots[i].priority == 0
    requires states[n].pools[p].interval >= 100_000_000
    ensures var slots := states[n].pools[p].gpus[k].slots;
            Contiguous(slots) && End(slots[|slots| - 1]) == states[n].pools[p].interval
  {
    RunInvariant(states, ops, n);
    assert PoolValid(states[n].pools[p]);
    var slots := states[n].pools[p].gpus[k].slots;
    BalancedTiles(slots, states[n].pools[p].interval);
    BalancedDefaultsFillIff(slots, states[n].pools[p].interval);
  }

  // ---------------------------------------------------------------- taking turns

  /** The slot that each switch of a series of visits makes current. */
  function Switches(g: Gpu, interval: int, times: seq<int>): seq<nat>
    decreases |times|
  {
    if times == [] then []
    else
      var g' := Tick(g, interval, times[0]);
      (if g.slots != [] && times[0] - g.last >= TruncDiv(interval, |g.slots|) then [g'.current] else [])
      + Switches(g', interval, times[1..])
  }

  /** The GPU after the first `n` visits. */
  function Visited(g: Gpu, interval: int, times: seq<int>, n: nat): Gpu
    requires n <= |times|
  {
    if n == 0 then g else Tick(Visited(g, interval, times, n - 1), interval, times[n - 1])
  }

  lemma {:induction false} VisitedKeepsSlots(g: Gpu, interval: int, times: seq<int>, n: nat)
    requires n <= |times|
    ensures Visited(g, interval, times, n).slots == g.slots
  {
    if n > 0 {
      VisitedKeepsSlots(g, interval, times, n - 1);
    }
  }

  lemma TickGoesOn(g: Gpu, interval: nat, now: int, since: int)
    requires g.slots != []
    ensures Tick(g, interval, now) != g ==> Tick(g, interval, now).last == now && now - g.last >= interval / |g.slots|
    ensures g.last >= since ==> Tick(g, interval, now).last >= since
  {
    TickIs(g, interval, now);
    DivBounds(interval, |g.slots|, interval / |g.slots|);
  }

  /** After a switch the GPU has last been scheduled then, or later. */
  lemma {:induction false} ScheduledSince(g: Gpu, interval: nat, times: seq<int>, i: nat, n: nat)
    requires i < n <= |times| && g.slots != []
    requires Visited(g, interval, times, i + 1) != Visited(g, interval, times, i)
    ensures Visited(g, interval, times, n).last >= times[i]
    decreases n
  {
    VisitedKeepsSlots(g, interval, times, n - 1);
    TickGoesOn(Visited(g, interval, times, n - 1), interval, times[n - 1], times[i]);
    if i + 1 < n {
      ScheduledSince(g, interval, times, i, n - 1);
    }
  }

  /** However often and however irregularly the scheduler comes by, two switches of a GPU lie at least one share of
      its interval apart. */
  lemma SwitchesShareApart(g: Gpu, interval: nat, times: seq<int>, i: nat, j: nat)
    requires i < j < |times| && g.slots != []
    requires Visited(g, interval, times, i + 1) != Visited(g, interval, times, i)
    requires Visited(g, interval, times, j + 1) != Visited(g, interval, times, j)
    ensures times[j] - times[i] >= interval / |g.slots|
  {
    ScheduledSince(g, interval, times, i, j);
    VisitedKeepsSlots(g, interval, times, j);
    TickGoesOn(Visited(g, interval, times, j), interval, times[j], times[i]);
  }

  lemma Multiples(d: int, n: nat)
    ensures d >= 1 ==> d * n >= n
    ensures d <= -1 ==> d * n <= 0 - n
  {
    if d >= 1 {
      assert d * n == (d - 1) * n + n;
    } else if d <= -1 {
      assert d * n == (d + 1) * n - n;
      assert (-d - 1) * n >= 0;
    }
  }

  lemma RemainderIs(a: int, q: int, r: int, n: nat)
    requires 0 <= r < n && a == q * n + r
    ensures a % n == r
  {
    var d := q - a / n;
    assert a == (a / n) * n + a % n;
    assert d * n == a % n - r;
    Multiples(d, n);
  }

  lemma ModOfMod(a: nat, b: nat, n: nat)
    requires n > 0
    ensures (a % n + b) % n == (a + b) % n
  {
    var c := a % n + b;
    assert a == (a / n) * n + a % n;
    assert c == (c / n) * n + c % n;
    assert a + b == (a / n + c / n) * n + c % n;
    RemainderIs(a + b, a / n + c / n, c % n, n);
  }

  /** Whatever the times of the visits, and wherever the current index was left: switch number `i` goes to
      the slot `i + 1` places on, modulo the number of slots. In particular it is in range. */
  lemma {:induction false} SwitchesGoRound(g: Gpu, interval: int, times: seq<int>, i: nat)
    requires g.slots != [] && i < |Switches(g, interval, times)|
    ensures Switches(g, interval, times)[i] == (g.current + 1 + i) % |g.slots| < |g.slots|
    decreases |times|
  {
    var g' := Tick(g, interval, times[0]);
    if times[0] - g.last >= TruncDiv(interval, |g.slots|) {
      if i > 0 {
        SwitchesGoRound(g', interval, times[1..], i - 1);
        ModOfMod(g.current + 1, i, |g.slots|);
      }
    } else {
      SwitchesGoRound(g', interval, times[1..], i);
    }
  }

  /** Any `n` consecutive switches of a GPU with `n` slots make each slot current exactly once. */
  lemma EverySlotOnce(g: Gpu, interval: int, times: seq<int>, from: nat, slot: nat) returns (i: nat)
    requires slot < |g.slots| && from + |g.slots| <= |Switches(g, interval, times)|
    ensures from <= i < from + |g.slots| && Switches(g, interval, times)[i] == slot
    ensures forall j :: from <= j < from + |g.slots| && Switches(g, interval, times)[j] == slot ==> j == i
  {
    var n := |g.slots|;
    var base := g.current + 1 + from;
    i := from + (slot + n - base % n) % n;
    SwitchesGoRound(g, interval, times, i);
    OffsetReaches(base, slot, n);
    forall j | from <= j < from + n && Switches(g, interval, times)[j] == slot
      ensures j == i
    {
      SwitchesGoRound(g, interval, times, j);
      SameResidue(base + (j - from), base + (i - from), n);
    }
  }

  lemma OffsetReaches(base: nat, slot: nat, n: nat)
    requires slot < n
    ensures (base + (slot + n - base % n) % n) % n == slot
  {
    var d := slot + n - base % n;
    assert base == (base / n) * n + base % n;
    assert d + base == (base / n + 1) * n + slot;
    ModOfMod(d, base, n);
    RemainderIs(d + base, base / n + 1, slot, n);
  }

  lemma SameResidue(a: nat, b: nat, n: nat)
    requires n > 0 && a % n == b % n && -(n as int) < a - b < n
    ensures a == b
  {
    assert a == (a / n) * n + a % n && b == (b / n) * n + b % n;
    assert a - b == (a / n - b / n) * n;
    Multiples(a / n - b / n, n);
  }
}
