/** Exclusive allocation on its own objects: GPUs that the manager knows by key and that pools list. */
module ExclusiveManagers {
  import opened Common
  import opened ExclusiveSpec

  class GPUInfo {
    const key: GpuKey
    const totalMemory: int
    var allocations: seq<Allocation>

    constructor (key: GpuKey, totalMemory: int)
      ensures this.key == key && this.totalMemory == totalMemory && allocations == []
    {
      this.key, this.totalMemory, allocations := key, totalMemory, [];
    }

    /** Keeps the allocations of all other services, in their order. */
    method ReleaseService(svc: Service)
      modifies this`allocations
      ensures allocations == Others(old(allocations), svc)
    {
      var newAllocations := [];
      for i := 0 to |allocations|
        invariant newAllocations == Others(allocations[..i], svc)
      {
        assert allocations[..i + 1][..i] == allocations[..i];
        if allocations[i].service != svc {
          newAllocations := newAllocations + [allocations[i]];
        }
      }
      assert allocations[..|allocations|] == allocations;
      allocations := newAllocations;
    }
  }

  class ExclusiveManager {
    var gpus: map<GpuKey, GPUInfo>
    ghost var state: State

    ghost predicate Valid()
      reads this, gpus.Values
    {
      gpus.Keys == state.Keys && forall k :: k in gpus ==> gpus[k].key == k && gpus[k].allocations == state[k]
    }

    constructor ()
      ensures Valid() && state == map[]
    {
      gpus, state := map[], map[];
    }

    /** The pool lists GPUs that the manager knows. */
    ghost predicate Known(pool: seq<GPUInfo>)
      reads this`gpus
    {
      forall i :: 0 <= i < |pool| ==> pool[i].key in gpus && gpus[pool[i].key] == pool[i]
    }

    /** Looks for free GPUs until it has enough of them; one is looked for even where none is asked for. */
    method FindAvailableGPUs(pool: seq<GPUInfo>, count: nat) returns (available: seq<GPUInfo>)
      requires Valid() && Known(pool)
      ensures Known(available) && forall i :: 0 <= i < |available| ==> available[i] in pool
      ensures AllIn(state, Devices(pool)) && Found(FreeIn(state, Devices(pool)), count, Devices(available))
    {
      available := [];
      ghost var devices := Devices(pool);
      for i := 0 to |pool|
        invariant Known(available) && forall j :: 0 <= j < |available| ==> available[j] in pool
        invariant Devices(available) == FreeIn(state, devices[..i])
        invariant available == [] || |available| < count
      {
        OneMoreLooked(state, devices, i);
        if |pool[i].allocations| == 0 {
          OneMoreDevice(available, pool[i]);
          available := available + [pool[i]];
          if |available| >= count {
            return;
          }
        }
      }
      assert devices[..|pool|] == devices;
    }

    /** Takes the first free GPUs of the pool, as many as asked for, or fails and changes nothing. */
    method AllocateExclusive(svc: Service, count: nat, pool: seq<GPUInfo>) returns (ok: bool, given: seq<GpuKey>)
      requires Valid() && Known(pool)
      modifies this`state, pool
      ensures Valid() && AllIn(old(state), Devices(pool))
      ensures AllocateStep(old(state), svc, count, Devices(pool), state, ok)
      ensures ok ==> var free := FreeIn(old(state), Devices(pool));
                |given| == count && forall i :: 0 <= i < count ==> given[i] == free[i].key
      ensures !ok ==> given == []
    {
      var available := FindAvailableGPUs(pool, count);
      if |available| < count {
        return false, [];
      }
      given := TakeFirst(available, count, svc);
      assert Devices(available)[..count] == FreeIn(old(state), Devices(pool))[..count];
      return true, given;
    }

    method TakeFirst(available: seq<GPUInfo>, count: nat, svc: Service) returns (given: seq<GpuKey>)
      requires Valid() && Known(available) && count <= |available|
      modifies this`state, available
      ensures Valid() && AllIn(old(state), Devices(available)[..count])
      ensures state == Recorded(old(state), svc, Devices(available)[..count])
      ensures |given| == count && forall i :: 0 <= i < count ==> given[i] == available[i].key
    {
      given := [];
      ghost var devices := Devices(available);
      for i := 0 to count
        invariant Valid() && KeysAre(given, devices, i) && RecordedFirst(old(state), svc, devices, i, state)
      {
        OneMoreRecorded(old(state), svc, devices, i, state);
        OneMoreKey(given, devices, i);
        Take(available[i], svc);
        given := given + [available[i].key];
      }
    }

    method Take(gpu: GPUInfo, svc: Service)
      requires Valid() && gpu.key in gpus && gpus[gpu.key] == gpu
      modifies this`state, gpu`allocations
      ensures Valid() && gpu.key in old(state) && state == Record(old(state), svc, DeviceOf(gpu))
    {
      gpu.allocations := gpu.allocations + [Allocation(svc, gpu.totalMemory)];
      state := Record(state, svc, DeviceOf(gpu));
    }

    method ReleaseGPU(k: GpuKey, svc: Service)
      requires Valid() && k in gpus
      modifies this`state, gpus[k]
      ensures Valid() && k in old(state) && state == old(state)[k := Others(old(state)[k], svc)]
    {
      gpus[k].ReleaseService(svc);
      state := state[k := Others(state[k], svc)];
    }

    /** Frees every GPU that the service holds. */
    method Release(svc: Service)
      requires Valid()
      modifies this`state, gpus.Values
      ensures Valid() && state == Released(old(state), svc)
    {
      var todo := gpus.Keys;
      assert state == ReleasedExcept(state, svc, todo);
      while todo != {}
        invariant Valid() && todo <= gpus.Keys
        invariant state == ReleasedExcept(old(state), svc, todo)
      {
        var k :| k in todo;
        OneMoreReleased(old(state), svc, todo, k);
        ReleaseGPU(k, svc);
        todo := todo - {k};
      }
      assert ReleasedExcept(old(state), svc, {}) == Released(old(state), svc);
    }
  }

  /** The GPUs in `todo` are still to be visited. */
  function ReleasedExcept(s: State, svc: Service, todo: set<GpuKey>): State {
    map k | k in s :: if k in todo then s[k] else Others(s[k], svc)
  }

  lemma OneMoreReleased(s: State, svc: Service, todo: set<GpuKey>, k: GpuKey)
    requires k in s && k in todo
    ensures var s1 := ReleasedExcept(s, svc, todo);
            s1[k := Others(s1[k], svc)] == ReleasedExcept(s, svc, todo - {k})
  {
  }

  ghost function DeviceOf(gpu: GPUInfo): Device {
    Device(gpu.key, gpu.totalMemory)
  }

  ghost function Devices(pool: seq<GPUInfo>): (devices: seq<Device>)
    ensures |devices| == |pool|
    ensures forall i :: 0 <= i < |pool| ==> devices[i] == DeviceOf(pool[i])
  {
    seq(|pool|, i requires 0 <= i < |pool| => DeviceOf(pool[i]))
  }

  /** Of the free devices the search found as many as it needs, from the front, or all. */
  ghost predicate Found(free: seq<Device>, count: nat, found: seq<Device>) {
    found <= free && |found| == if |free| < count || free == [] then |free| else if count == 0 then 1 else count
  }

  /** The first `n` devices have got one more allocation. */
  ghost predicate RecordedFirst(s: State, svc: Service, devices: seq<Device>, n: nat, s': State) {
    n <= |devices| && AllIn(s, devices[..n]) && s' == Recorded(s, svc, devices[..n])
  }

  /** The keys of the first `n` devices. */
  ghost predicate KeysAre(keys: seq<GpuKey>, devices: seq<Device>, n: nat) {
    |keys| == n <= |devices| && forall j :: 0 <= j < n ==> keys[j] == devices[j].key
  }

  lemma OneMoreKey(keys: seq<GpuKey>, devices: seq<Device>, n: nat)
    requires n < |devices| && KeysAre(keys, devices, n)
    ensures KeysAre(keys + [devices[n].key], devices, n + 1)
  {
  }

  lemma OneMoreRecorded(s: State, svc: Service, devices: seq<Device>, i: nat, s': State)
    requires i < |devices| && RecordedFirst(s, svc, devices, i, s') && devices[i].key in s
    ensures RecordedFirst(s, svc, devices, i + 1, Record(s', svc, devices[i]))
  {
    assert devices[..i + 1][..i] == devices[..i];
  }

  lemma OneMoreDevice(available: seq<GPUInfo>, gpu: GPUInfo)
    ensures Devices(available + [gpu]) == Devices(available) + [DeviceOf(gpu)]
  {
  }

  lemma OneMoreLooked(s: State, pool: seq<Device>, i: nat)
    requires AllIn(s, pool) && i < |pool|
    ensures FreeIn(s, pool[..i + 1]) == FreeIn(s, pool[..i]) + if s[pool[i].key] == [] then [pool[i]] else []
    ensures FreeIn(s, pool[..i + 1]) <= FreeIn(s, pool)
  {
    assert pool[..i + 1][..i] == pool[..i];
    FreeInPrefix(s, pool, i + 1);
  }

  lemma {:induction false} FreeInPrefix(s: State, pool: seq<Device>, n: nat)
    requires AllIn(s, pool) && n <= |pool|
    ensures FreeIn(s, pool[..n]) <= FreeIn(s, pool)
    decreases |pool|
  {
    if n == |pool| {
      assert pool[..n] == pool;
    } else {
      FreeInPrefix(s, pool[..|pool| - 1], n);
      assert pool[..|pool| - 1][..n] == pool[..n];
    }
  }
}
