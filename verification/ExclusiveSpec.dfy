/** Exclusive allocation on values: the allocations recorded on every GPU. */
module ExclusiveSpec {
  import opened Common
  import opened Sorting

  datatype Allocation = Allocation(service: Service, memory: int)

  type State = map<GpuKey, seq<Allocation>>

  /** A GPU of the cluster and its memory, as a pool lists it. */
  datatype Device = Device(key: GpuKey, memory: int)

  ghost predicate AllIn(s: State, pool: seq<Device>) {
    forall i :: 0 <= i < |pool| ==> pool[i].key in s
  }

  /** The free GPUs of the pool, in its order. */
  function FreeIn(s: State, pool: seq<Device>): seq<Device>
    requires AllIn(s, pool)
  {
    if pool == [] then []
    else FreeIn(s, pool[..|pool| - 1]) + if s[pool[|pool| - 1].key] == [] then [pool[|pool| - 1]] else []
  }

  lemma {:induction false} FreeInIff(s: State, pool: seq<Device>, d: Device)
    requires AllIn(s, pool)
    ensures d in FreeIn(s, pool) <==> d in pool && s[d.key] == []
  {
    if pool != [] {
      FreeInIff(s, pool[..|pool| - 1], d);
      assert pool == pool[..|pool| - 1] + [pool[|pool| - 1]];
    }
  }

  lemma FreeInAll(s: State, pool: seq<Device>)
    requires AllIn(s, pool)
    ensures forall d :: d in FreeIn(s, pool) <==> d in pool && s[d.key] == []
  {
    forall d
      ensures d in FreeIn(s, pool) <==> d in pool && s[d.key] == []
    {
      FreeInIff(s, pool, d);
    }
  }

  /** The search takes the pool's free GPUs in its order and passes over none. */
  lemma {:induction false} FreeInIs(s: State, pool: seq<Device>) returns (places: seq<nat>)
    requires AllIn(s, pool)
    ensures Picks(pool, (d: Device) => d.key in s && s[d.key] == [], places, FreeIn(s, pool))
  {
    if pool == [] {
      places := [];
    } else {
      var init, last := pool[..|pool| - 1], pool[|pool| - 1];
      var free := (d: Device) => d.key in s && s[d.key] == [];
      var before := FreeInIs(s, init);
      assert pool == init + [last];
      PicksMore(init, last, free, before, FreeIn(s, init));
      places := if free(last) then before + [|init|] else before;
      assert FreeIn(s, pool) == if free(last) then FreeIn(s, init) + [last] else FreeIn(s, init);
    }
  }

  /** Every device listed gets one more allocation. */
  function Recorded(s: State, svc: Service, devices: seq<Device>): (s': State)
    requires AllIn(s, devices)
    ensures s'.Keys == s.Keys
  {
    if devices == [] then s
    else Record(Recorded(s, svc, devices[..|devices| - 1]), svc, devices[|devices| - 1])
  }

  function Record(s: State, svc: Service, d: Device): State
    requires d.key in s
  {
    s[d.key := s[d.key] + [Allocation(svc, d.memory)]]
  }

  /** The first free GPUs of the pool are taken, as many as asked for, or nothing happens. */
  ghost predicate AllocateStep(s: State, svc: Service, count: nat, pool: seq<Device>, s': State, ok: bool)
    requires AllIn(s, pool)
  {
    FreeInAll(s, pool);
    if count <= |FreeIn(s, pool)| then ok && s' == Recorded(s, svc, FreeIn(s, pool)[..count]) else !ok && s' == s
  }

  function Others(allocs: seq<Allocation>, svc: Service): (r: seq<Allocation>)
    ensures forall a :: a in r <==> a in allocs && a.service != svc
    ensures |r| <= |allocs|
  {
    FilterKeeps(allocs, (a: Allocation) => a.service != svc);
    Filter(allocs, (a: Allocation) => a.service != svc)
  }

  /** The others are kept one by one, as often as they occur and in their order. */
  lemma OthersAre(allocs: seq<Allocation>, svc: Service) returns (places: seq<nat>)
    ensures Picks(allocs, (a: Allocation) => a.service != svc, places, Others(allocs, svc))
  {
    places := FilterPicks(allocs, (a: Allocation) => a.service != svc);
  }

  function Released(s: State, svc: Service): State {
    map k | k in s :: Others(s[k], svc)
  }

  // ---------------------------------------------------------------- exclusiveness

  /** No GPU ever has two allocations. */
  ghost predicate Exclusive(s: State) {
    forall k :: k in s ==> |s[k]| <= 1
  }

  ghost predicate DistinctKeys(devices: seq<Device>) {
    DistinctBy(devices, (d: Device) => d.key)
  }

  ghost function KeysOf(devices: seq<Device>): set<GpuKey> {
    set d | d in devices :: d.key
  }

  lemma {:induction false} FreeInDistinct(s: State, pool: seq<Device>)
    requires AllIn(s, pool) && DistinctKeys(pool)
    ensures DistinctKeys(FreeIn(s, pool))
  {
    if pool != [] {
      var rest := pool[..|pool| - 1];
      FreeInDistinct(s, rest);
      FreeInAll(s, rest);
      forall d | d in FreeIn(s, rest)
        ensures d.key != pool[|pool| - 1].key
      {
        assert d in rest;
      }
    }
  }

  /** What recording does to one GPU: distinct free devices get exactly one allocation each. */
  lemma {:induction false} RecordedAt(s: State, svc: Service, devices: seq<Device>, k: GpuKey)
    requires AllIn(s, devices) && DistinctKeys(devices) && k in s
    ensures k in Recorded(s, svc, devices)
    ensures k !in KeysOf(devices) ==> Recorded(s, svc, devices)[k] == s[k]
    ensures forall d :: d in devices && d.key == k ==>
              Recorded(s, svc, devices)[k] == s[k] + [Allocation(svc, d.memory)]
  {
    if devices != [] {
      var rest, last := devices[..|devices| - 1], devices[|devices| - 1];
      RecordedAt(s, svc, rest, k);
      RecordedAt(s, svc, rest, last.key);
      assert last.key !in KeysOf(rest);
      assert devices == rest + [last];
    }
  }

  lemma {:induction false} RecordedGrows(s: State, svc: Service, devices: seq<Device>, k: GpuKey)
    requires AllIn(s, devices) && k in s
    ensures k in Recorded(s, svc, devices) && |Recorded(s, svc, devices)[k]| >= |s[k]|
    ensures k in KeysOf(devices) ==> |Recorded(s, svc, devices)[k]| >= |s[k]| + 1
  {
    if devices != [] {
      RecordedGrows(s, svc, devices[..|devices| - 1], k);
      assert devices == devices[..|devices| - 1] + [devices[|devices| - 1]];
    }
  }

  lemma {:induction false} RecordedTwice(s: State, svc: Service, devices: seq<Device>, i: nat, j: nat)
    requires AllIn(s, devices) && i < j < |devices| && devices[i].key == devices[j].key
    ensures !Exclusive(Recorded(s, svc, devices))
  {
    var rest, last := devices[..|devices| - 1], devices[|devices| - 1];
    if j == |rest| {
      assert rest[i] in rest;
      RecordedGrows(s, svc, rest, last.key);
    } else {
      RecordedTwice(s, svc, rest, i, j);
      var before := Recorded(s, svc, rest);
      var k :| k in before && |before[k]| > 1;
      assert |Recorded(s, svc, devices)[k]| > 1;
    }
  }

  /** A request that succeeds keeps GPUs exclusive exactly when the GPUs it takes are distinct, as they are
      when the pool lists none twice: the search looks at all of them before it records anything. */
  lemma AllocateStaysExclusiveIff(s: State, svc: Service, count: nat, pool: seq<Device>, s': State, ok: bool)
    requires AllIn(s, pool) && Exclusive(s) && AllocateStep(s, svc, count, pool, s', ok)
    ensures ok <==> count <= |FreeIn(s, pool)|
    ensures Exclusive(s') <==> !ok || DistinctKeys(FreeIn(s, pool)[..count])
    ensures DistinctKeys(pool) ==> Exclusive(s')
  {
    if ok {
      var taken := FreeIn(s, pool)[..count];
      FreeInAll(s, pool);
      assert forall d :: d in taken ==> d in FreeIn(s, pool);
      if DistinctKeys(taken) {
        forall k | k in s
          ensures |s'[k]| <= 1
        {
          RecordedAt(s, svc, taken, k);
          if k in KeysOf(taken) {
            var d :| d in taken && d.key == k;
            assert s[k] == [];
          }
        }
      } else {
        var i, j :| 0 <= i < j < |taken| && taken[i].key == taken[j].key;
        RecordedTwice(s, svc, taken, i, j);
      }
      if DistinctKeys(pool) {
        FreeInDistinct(s, pool);
      }
    }
  }

  lemma ReleaseStaysExclusive(s: State, svc: Service)
    requires Exclusive(s)
    ensures Exclusive(Released(s, svc))
  {
  }

  /** Releasing a service frees exactly the GPUs that it held, and leaves all others as they were. */
  lemma ReleaseFreesExactly(s: State, svc: Service, k: GpuKey)
    requires Exclusive(s) && k in s
    ensures HoldsGpu(s, svc, k) ==> Released(s, svc)[k] == []
    ensures !HoldsGpu(s, svc, k) ==> Released(s, svc)[k] == s[k]
  {
    var others := Others(s[k], svc);
    FilterSameLength(s[k], (a: Allocation) => a.service != svc);
    assert others != [] ==> others[0] in others;
  }

  ghost predicate HoldsGpu(s: State, svc: Service, k: GpuKey) {
    k in s && exists a :: a in s[k] && a.service == svc
  }

  ghost function GpusOf(s: State, svc: Service): set<GpuKey> {
    set k | k in s && HoldsGpu(s, svc, k)
  }

  lemma {:induction false} KeyCount(devices: seq<Device>)
    requires DistinctKeys(devices)
    ensures |KeysOf(devices)| == |devices|
  {
    if devices == [] {
      assert KeysOf(devices) == {};
    } else {
      var rest, last := devices[..|devices| - 1], devices[|devices| - 1];
      KeyCount(rest);
      assert devices == rest + [last];
      assert KeysOf(devices) == KeysOf(rest) + {last.key} && last.key !in KeysOf(rest);
    }
  }

  lemma GrantedAt(s: State, svc: Service, taken: seq<Device>, owner: Service, k: GpuKey)
    requires AllIn(s, taken) && DistinctKeys(taken) && k in s
    ensures HoldsGpu(Recorded(s, svc, taken), owner, k)
       <==> HoldsGpu(s, owner, k) || (owner == svc && k in KeysOf(taken))
  {
    RecordedAt(s, svc, taken, k);
  }

  /** A request that succeeds gives the service exactly as many GPUs as it asked for, none of which anybody
      had, and takes none from anyone. */
  lemma AllocateGrants(s: State, svc: Service, count: nat, pool: seq<Device>, s': State)
    requires AllIn(s, pool) && DistinctKeys(pool) && AllocateStep(s, svc, count, pool, s', true)
    ensures s'.Keys == s.Keys
    ensures |GpusOf(s', svc)| == |GpusOf(s, svc)| + count
    ensures forall k :: k in GpusOf(s', svc) - GpusOf(s, svc) ==> s[k] == [] && exists d :: d in pool && d.key == k
    ensures forall other :: other != svc ==> GpusOf(s', other) == GpusOf(s, other)
  {
    var taken := FreeIn(s, pool)[..count];
    FreeInAll(s, pool);
    assert forall d :: d in taken ==> d in FreeIn(s, pool);
    FreeInDistinct(s, pool);
    KeyCount(taken);
    forall owner
      ensures GpusOf(s', owner) == if owner == svc then GpusOf(s, owner) + KeysOf(taken) else GpusOf(s, owner)
    {
      forall k | k in s {
        GrantedAt(s, svc, taken, owner, k);
      }
    }
    assert GpusOf(s, svc) !! KeysOf(taken);
  }

  /** Releasing takes every GPU from the service and none from anyone else. */
  lemma ReleaseTakes(s: State, svc: Service, other: Service)
    ensures GpusOf(Released(s, svc), other) == if other == svc then {} else GpusOf(s, other)
  {
  }
}

/** Whole runs of exclusive allocation. */
module ExclusiveRuns {
  import opened Common
  import opened ExclusiveSpec

  datatype Op = Allocate(service: Service, count: nat, pool: seq<Device>, ok: bool) | Release(service: Service)

  ghost predicate Step(s: State, op: Op, s': State) {
    match op
    case Allocate(svc, count, pool, ok) =>
      AllIn(s, pool) && DistinctKeys(pool) && AllocateStep(s, svc, count, pool, s', ok)
    case Release(svc) => s' == Released(s, svc)
  }

  /** A run starts with every GPU free, and its pools list GPUs of the cluster, none twice. */
  ghost predicate IsRun(states: seq<State>, ops: seq<Op>) {
    && |states| == |ops| + 1 && (forall k :: k in states[0] ==> states[0][k] == [])
    && forall i :: 0 <= i < |ops| ==> Step(states[i], ops[i], states[i + 1])
  }

  /** What the service was granted and has not given back. */
  function Granted(ops: seq<Op>, svc: Service): nat {
    if ops == [] then 0
    else
      var before := Granted(ops[..|ops| - 1], svc);
      match ops[|ops| - 1]
      case Allocate(owner, count, _, ok) => if owner == svc && ok then before + count else before
      case Release(owner) => if owner == svc then 0 else before
  }

  /** In every run no GPU has two allocations, and every service has exactly as many GPUs as it was
      granted and has not given back. */
  lemma {:induction false} RunInvariant(states: seq<State>, ops: seq<Op>, svc: Service, n: nat)
    requires IsRun(states, ops) && n <= |ops|
    ensures Exclusive(states[n]) && |GpusOf(states[n], svc)| == Granted(ops[..n], svc)
  {
    if n == 0 {
      assert GpusOf(states[0], svc) == {};
    } else {
      RunInvariant(states, ops, svc, n - 1);
      assert ops[..n][..n - 1] == ops[..n - 1];
      var s, op, s' := states[n - 1], ops[n - 1], states[n];
      assert Step(s, op, s');
      match op {
        case Allocate(owner, count, pool, ok) =>
          AllocateStaysExclusiveIff(s, owner, count, pool, s', ok);
          if ok {
            AllocateGrants(s, owner, count, pool, s');
          }
        case Release(owner) =>
          ReleaseStaysExclusive(s, owner);
          ReleaseTakes(s, owner, svc);
      }
    }
  }
}
