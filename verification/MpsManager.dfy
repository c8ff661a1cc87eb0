/** The MPS manager as its own objects: daemons, filed both under their pool and in a global index. */
module MpsManagers {
  import opened Common
  import opened MpsSpec
  import opened MpsRuns

  datatype Status = Starting | Running | Stopped

  class MPSDaemon {
    const key: GpuKey
    const threadPctLimit: int
    ghost const pool: string
    var clients: map<ClientId, Client>
    var status: Status

    constructor (key: GpuKey, threadPctLimit: int, ghost pool: string)
      ensures this.key == key && this.threadPctLimit == threadPctLimit && this.pool == pool
      ensures View() == Daemon(false, map[])
    {
      this.key, this.threadPctLimit, this.pool := key, threadPctLimit, pool;
      clients, status := map[], Starting;
    }

    ghost function View(): Daemon
      reads this
    {
      Daemon(status == Running, clients)
    }

    /** Drops every client of the service. */
    method ReleaseService(svc: Service)
      modifies this`clients
      ensures View() == WithoutService(old(View()), svc)
    {
      var todo := clients.Keys;
      while todo != {}
        invariant clients.Keys <= old(clients).Keys && todo <= clients.Keys
        invariant forall id :: id in clients ==> clients[id] == old(clients)[id]
        invariant forall id :: id in old(clients) && id !in todo ==>
                                 (id in clients <==> old(clients)[id].service != svc)
      {
        var id :| id in todo;
        if clients[id].service == svc {
          clients := clients - {id};
        }
        todo := todo - {id};
      }
      assert clients == WithoutService(old(View()), svc).clients;
    }
  }

  /** The object at `(p, k)` has the value `d`. A daemon knows its pool and its device, so no two places
      hold the same one. */
  ghost predicate Matches(daemon: MPSDaemon, p: string, k: GpuKey, d: Daemon)
    reads daemon
  {
    daemon.pool == p && daemon.key == k && daemon.View() == d
  }

  datatype PoolConfig = PoolConfig(threadPct: int, daemons: map<GpuKey, MPSDaemon>)

  /** The daemon at `(p, k)` knows its pool and its device, and is the one that the index has there. */
  ghost predicate FiledAt(pools: map<string, PoolConfig>, daemons: map<GpuKey, MPSDaemon>, p: string, k: GpuKey)
    requires p in pools && k in pools[p].daemons
  {
    var daemon := pools[p].daemons[k];
    daemon.pool == p && daemon.key == k && k in daemons && daemons[k] == daemon
  }

  ghost predicate Listed(pools: map<string, PoolConfig>, p: string, k: GpuKey) {
    p in pools && k in pools[p].daemons
  }

  /** The global index holds every pool's daemons, each the same object, and nothing else. */
  ghost predicate Indexed(pools: map<string, PoolConfig>, daemons: map<GpuKey, MPSDaemon>) {
    && (forall p, k :: Listed(pools, p, k) ==> FiledAt(pools, daemons, p, k))
    && (forall k :: k in daemons ==> Listed(pools, daemons[k].pool, k) && daemons[k].key == k)
  }

  /** Configuring a pool again drops its daemons from the pool but not from the index: the two still agree
      exactly when there were none. */
  lemma ReconfigureStaysIndexedIff(pools: map<string, PoolConfig>, daemons: map<GpuKey, MPSDaemon>, name: string,
                                   pct: int)
    requires Indexed(pools, daemons)
    ensures Indexed(pools[name := PoolConfig(pct, map[])], daemons)
       <==> (name in pools ==> pools[name].daemons.Keys == {})
  {
    var pools' := pools[name := PoolConfig(pct, map[])];
    if k :| Listed(pools, name, k) {
      assert FiledAt(pools, daemons, name, k);
      assert !Listed(pools', daemons[k].pool, k);
    } else {
      forall p, k | Listed(pools', p, k)
        ensures FiledAt(pools', daemons, p, k)
      {
        assert Listed(pools, p, k) && FiledAt(pools, daemons, p, k);
      }
      forall k | k in daemons
        ensures Listed(pools', daemons[k].pool, k)
      {
        assert Listed(pools, daemons[k].pool, k);
      }
      assert name in pools ==> forall k :: k in pools[name].daemons ==> Listed(pools, name, k);
    }
  }

  /** Filing a new daemon keeps pools and index in agreement exactly when the index had none for its
      device: one that another pool had there would be forgotten. */
  lemma StartStaysIndexedIff(pools: map<string, PoolConfig>, daemons: map<GpuKey, MPSDaemon>, p: string,
                             daemon: MPSDaemon)
    requires Indexed(pools, daemons) && p in pools && daemon.key !in pools[p].daemons && daemon.pool == p
    requires forall k :: k in daemons ==> daemons[k] != daemon
    ensures Indexed(WithStarted(pools, p, daemon), daemons[daemon.key := daemon]) <==> daemon.key !in daemons
  {
    var key, pools', daemons' := daemon.key, WithStarted(pools, p, daemon), daemons[daemon.key := daemon];
    if key in daemons {
      var q := daemons[key].pool;
      assert Listed(pools, q, key) && FiledAt(pools, daemons, q, key);
      assert Listed(pools', q, key) && !FiledAt(pools', daemons', q, key);
    } else {
      forall q, k | Listed(pools', q, k)
        ensures FiledAt(pools', daemons', q, k)
      {
        assert Listed(pools, q, key) ==> key in daemons;
        assert k != key ==> Listed(pools, q, k);
      }
      forall k | k in daemons'
        ensures Listed(pools', daemons'[k].pool, k) && daemons'[k].key == k
      {
        assert k != key ==> Listed(pools, daemons[k].pool, k);
      }
    }
  }

  function WithStarted(pools: map<string, PoolConfig>, p: string, daemon: MPSDaemon): map<string, PoolConfig>
    requires p in pools
  {
    pools[p := pools[p].(daemons := pools[p].daemons[daemon.key := daemon])]
  }

  class MPSManager {
    var pools: map<string, PoolConfig>
    var daemons: map<GpuKey, MPSDaemon>
    ghost var state: State

    ghost function Objects(): set<MPSDaemon>
      reads this`pools
    {
      set p, k | p in pools && k in pools[p].daemons :: pools[p].daemons[k]
    }

    ghost predicate PoolsMatch()
      reads this`pools, this`state, Objects()
    {
      && SameShape(pools, state)
      && forall p, k {:trigger Matches(pools[p].daemons[k], p, k, state[p].daemons[k])} ::
           p in pools && k in pools[p].daemons ==> Matches(pools[p].daemons[k], p, k, state[p].daemons[k])
    }

    ghost predicate Valid()
      reads this, Objects()
    {
      PoolsMatch() && Indexed(pools, daemons) && MpsSpec.Valid(state)
    }

    constructor ()
      ensures Valid() && state == map[]
    {
      pools, daemons, state := map[], map[], map[];
    }

    /** Replaces the maps. But for `(p, k)`, whatever is in the new ones was in the old. */
    method Replace(pools': map<string, PoolConfig>, daemons': map<GpuKey, MPSDaemon>, ghost s: State,
                   ghost p: string, ghost k: GpuKey)
      requires PoolsMatch() && SameShape(pools', s)
      requires forall q, j {:trigger Elsewhere(pools, state, pools', s, q, j)} ::
                 q in pools' && j in pools'[q].daemons && (q != p || j != k) ==>
                   Elsewhere(pools, state, pools', s, q, j)
      requires Listed(pools', p, k) ==> Matches(pools'[p].daemons[k], p, k, s[p].daemons[k])
      modifies this`pools, this`daemons, this`state
      ensures PoolsMatch() && pools == pools' && daemons == daemons' && state == s
    {
      forall q, j | q in pools' && j in pools'[q].daemons
        ensures Matches(pools'[q].daemons[j], q, j, s[q].daemons[j])
      {
        if q != p || j != k {
          assert Elsewhere(pools, state, pools', s, q, j);
          assert Matches(pools[q].daemons[j], q, j, state[q].daemons[j]);
        }
      }
      pools, daemons, state := pools', daemons', s;
    }

    /** A pool that has daemons should not be configured again: see `ReconfigureStaysIndexedIff`. */
    method ConfigurePool(name: string, mps: bool, threadPct: int) returns (ok: bool)
      requires Valid()
      modifies this`pools, this`state
      ensures ok == mps && PoolsMatch()
      ensures state == if ok then Configured(old(state), name, threadPct) else old(state)
      ensures pools == if ok then old(pools)[name := PoolConfig(if threadPct == 0 then 100 else threadPct, map[])]
                       else old(pools)
      ensures Valid() <==> (ok && name in old(state) ==> old(state)[name].daemons.Keys == {})
    {
      ok := mps;
      if !ok {
        return;
      }
      var pct := if threadPct == 0 then 100 else threadPct;
      ReconfigureStaysIndexedIff(pools, daemons, name, pct);
      FewerStayDisjoint(state, Configured(state, name, threadPct));
      pools := pools[name := PoolConfig(pct, map[])];
      state := Configured(state, name, threadPct);
      forall p, k | p in pools && k in pools[p].daemons
        ensures Matches(pools[p].daemons[k], p, k, state[p].daemons[k])
      {
        assert old(Matches(pools[p].daemons[k], p, k, state[p].daemons[k]));
      }
    }

    /** After the object at `(p, k)` changed, and nothing else: files its new value in the state. */
    ghost method Note(p: string, k: GpuKey, daemon: MPSDaemon)
      requires SameShape(pools, state) && Listed(pools, p, k) && daemon == pools[p].daemons[k]
      requires Indexed(pools, daemons) && MpsSpec.Valid(state) && DaemonValid(daemon.View())
      requires forall q, j :: q in pools && j in pools[q].daemons && (q != p || j != k) ==>
                 Matches(pools[q].daemons[j], q, j, state[q].daemons[j])
      modifies this`state
      ensures Valid() && p in old(state)
      ensures state == old(state)[p := WithDaemon(old(state)[p], k, daemon.View())]
    {
      assert FiledAt(pools, daemons, p, k);
      OnlyHere(pools, daemons, state, p, k);
      WithDaemonStaysValid(state, p, k, daemon.View());
      state := state[p := WithDaemon(state[p], k, daemon.View())];
      forall q, j | q in pools && j in pools[q].daemons
        ensures Matches(pools[q].daemons[j], q, j, state[q].daemons[j])
      {
        if q != p || j != k {
          assert old(Matches(pools[q].daemons[j], q, j, state[q].daemons[j]));
        }
      }
    }

    /** Looks for a daemon with room, then for a device of the pool without one. */
    method FindDaemon(r: Request) returns (found: Option<GpuKey>)
      requires Valid() && r.pool in pools
      ensures found.Some? ==> Chosen(state[r.pool], r.gpus, found.value)
      ensures found.None? ==> Exhausted(state[r.pool], r.gpus)
      ensures var had := state[r.pool].daemons;
              && (found.Some? && found.value in had ==> had[found.value].running && |had[found.value].clients| < 48)
              && (found.Some? && found.value !in had ==>
                    AllFull(state[r.pool]) && exists i :: 0 <= i < |r.gpus| && r.gpus[i] == found.value
                                                          && forall j :: 0 <= j < i ==> r.gpus[j] in had)
      ensures found.None? ==> AllFull(state[r.pool]) && forall k :: k in r.gpus ==> k in state[r.pool].daemons
    {
      var inPool := pools[r.pool].daemons;
      var todo := inPool.Keys;
      while todo != {}
        invariant todo <= inPool.Keys
        invariant forall k :: k in inPool && k !in todo ==> !HasRoom(state[r.pool], k)
      {
        var k :| k in todo;
        assert Matches(inPool[k], r.pool, k, state[r.pool].daemons[k]);
        if inPool[k].status == Running && |inPool[k].clients| < 48 {
          ChosenIs(state[r.pool], r.gpus, k);
          return Some(k);
        }
        todo := todo - {k};
      }
      for i := 0 to |r.gpus|
        invariant forall j :: 0 <= j < i ==> r.gpus[j] in inPool
      {
        if r.gpus[i] !in inPool {
          ChosenIs(state[r.pool], r.gpus, r.gpus[i]);
          return Some(r.gpus[i]);
        }
      }
      ExhaustedIs(state[r.pool], r.gpus);
      return None;
    }

    /** Starts a daemon on a device that no pool has one on: see `StartStaysIndexedIff`. */
    method StartDaemon(p: string, k: GpuKey) returns (daemon: MPSDaemon)
      requires Valid() && p in pools && k !in daemons
      modifies this`pools, this`daemons, this`state
      ensures Valid() && fresh(daemon) && fresh(Objects() - old(Objects()))
      ensures Listed(pools, p, k) && pools[p].daemons[k] == daemon && pools.Keys == old(pools).Keys
      ensures daemons == old(daemons)[k := daemon]
      ensures p in old(state) && state == old(state)[p := WithDaemon(old(state)[p], k, Daemon(true, map[]))]
    {
      daemon := new MPSDaemon(k, pools[p].threadPct, p);
      daemon.status := Running;
      FileDaemon(p, k, daemon);
    }

    /** Puts a new daemon into its pool and into the index. */
    method FileDaemon(p: string, k: GpuKey, daemon: MPSDaemon)
      requires Valid() && p in pools && k !in daemons && daemon !in Objects()
      requires daemon.pool == p && daemon.key == k && daemon.View() == Daemon(true, map[])
      modifies this`pools, this`daemons, this`state
      ensures Valid() && pools == WithStarted(old(pools), p, daemon)
      ensures daemons == old(daemons)[k := daemon]
      ensures p in old(state) && state == old(state)[p := WithDaemon(old(state)[p], k, Daemon(true, map[]))]
    {
      StartKeepsAgreement(pools, daemons, state, p, daemon);
      StartedElsewhere(pools, state, p, daemon);
      var started := WithStarted(pools, p, daemon);
      Replace(started, daemons[k := daemon], state[p := WithDaemon(state[p], k, Daemon(true, map[]))], p, k);
    }

    /** Connects client number `n` of the service to a daemon that runs. */
    method Connect(p: string, k: GpuKey, svc: Service, n: nat)
      requires Valid() && Listed(pools, p, k) && |state[p].daemons[k].clients| < MAX_CLIENTS
      modifies this`state, pools[p].daemons[k]
      ensures Valid() && p in old(state) && state == old(state)[p := AddClient(old(state)[p], svc, n, k)]
    {
      var daemon := pools[p].daemons[k];
      assert Matches(daemon, p, k, state[p].daemons[k]);
      assert PoolValid(state[p]) && DaemonValid(state[p].daemons[k]);
      var client := Client(svc, daemon.key, pools[p].threadPct);
      OneMoreClientValid(daemon.View(), ClientId(svc, n), client);
      daemon.clients := daemon.clients[ClientId(svc, n) := client];
      forall q, j | q in pools && j in pools[q].daemons && (q != p || j != k)
        ensures Matches(pools[q].daemons[j], q, j, state[q].daemons[j])
      {
        assert old(Matches(pools[q].daemons[j], q, j, state[q].daemons[j]));
      }
      Note(p, k, daemon);
    }

    /** Starts a daemon for the client. */
    method ConnectToNew(p: string, k: GpuKey, svc: Service, n: nat)
      requires Valid() && p in pools && k !in daemons
      modifies this`pools, this`daemons, this`state
      ensures Valid() && fresh(Objects() - old(Objects())) && p in pools
      ensures p in old(state) && state == old(state)[p := AddClient(old(state)[p], svc, n, k)]
    {
      OnlyIndexed(pools, daemons, state, p, k);
      StartThenAdd(state, p, svc, n, k);
      var daemon := StartDaemon(p, k);
      Connect(p, k, svc, n);
    }

    /** One turn of the allocation loop. */
    method PlaceNext(r: Request, n: nat) returns (found: Option<GpuKey>)
      requires Valid() && r.pool in pools && Separate(state, r)
      modifies this`pools, this`daemons, this`state, Objects()
      ensures Valid() && fresh(Objects() - old(Objects())) && r.pool in pools
      ensures r.pool in old(state)
      ensures found.Some? ==> Chosen(old(state)[r.pool], r.gpus, found.value)
      ensures found.Some? ==> state == old(state)[r.pool := AddClient(old(state)[r.pool], r.service, n, found.value)]
      ensures found.None? ==> state == old(state) && Exhausted(state[r.pool], r.gpus)
    {
      found := FindDaemon(r);
      if found.None? {
        return;
      }
      var k := found.value;
      if k in pools[r.pool].daemons {
        Connect(r.pool, k, r.service, n);
      } else {
        NotInIndex(pools, daemons, state, r, k);
        ConnectToNew(r.pool, k, r.service, n);
      }
    }

    /** The allocation loop: places clients until all are placed or no device can take the next. */
    method PlaceClients(r: Request) returns (ks: seq<GpuKey>)
      requires Valid() && r.pool in pools && Separate(state, r)
      modifies this`pools, this`daemons, this`state, Objects()
      ensures Valid() && r.pool in old(state) && |ks| <= r.count
      ensures Placements(old(state)[r.pool], r.service, r.gpus, ks)
      ensures state == AfterPlacing(old(state), r, ks)
      ensures |ks| < r.count ==> Exhausted(state[r.pool], r.gpus)
      ensures fresh(Objects() - old(Objects()))
    {
      ks := [];
      NonePlaced(state, r);
      while |ks| < r.count
        invariant |ks| <= r.count && Valid() && r.pool in pools && fresh(Objects() - old(Objects()))
        invariant Placements(old(state)[r.pool], r.service, r.gpus, ks)
        invariant state == AfterPlacing(old(state), r, ks) && Separate(state, r)
      {
        var found := PlaceNext(r, |ks|);
        if found.None? {
          return;
        }
        OneMorePlaced(old(state), r, ks, found.value);
        ks := ks + [found.value];
      }
    }

    /** Connects a client for each device asked for; `ks` are their devices. A failure after the first
        client releases the service, once for every client that was placed. */
    method Allocate(r: Request) returns (ok: bool, ks: seq<GpuKey>)
      requires Valid() && Separate(state, r)
      modifies this`pools, this`daemons, this`state, Objects()
      ensures Valid() && AllocateVia(old(state), r, ks, state, ok)
      ensures ok <==> r.pool in old(state) && var pool := old(state)[r.pool];
                        r.count - Overwrites(pool, r.service, ks, |ks|) <= RoomIn(pool, r.gpus)
    {
      if r.pool !in pools {
        return false, [];
      }
      ks := PlaceClients(r);
      ok := |ks| == r.count;
      if !ok {
        RollBack(r.service, |ks|);
      }
      AllocateSucceedsIff(old(state), r, ks, state, ok);
    }

    /** Releases the service `n` times over. */
    method RollBack(svc: Service, n: nat)
      requires Valid()
      modifies this`state, daemons.Values
      ensures Valid() && state == if n == 0 then old(state) else Released(old(state), svc)
    {
      for j := 0 to n
        invariant Valid() && state == if j == 0 then old(state) else Released(old(state), svc)
      {
        ReleaseClient(svc);
        ReleasedTwice(old(state), svc);
      }
    }

    /** Drops the service's clients on one daemon. */
    method ReleaseAt(k: GpuKey, svc: Service)
      requires Valid() && k in daemons
      modifies this`state, daemons[k]
      ensures Valid()
      ensures Listed(pools, daemons[k].pool, k)
      ensures daemons[k].pool in old(state) && k in old(state)[daemons[k].pool].daemons
      ensures state == WithRelease(old(state), daemons[k].pool, k, svc)
    {
      var daemon := daemons[k];
      ghost var p := daemon.pool;
      assert Listed(pools, p, k) && FiledAt(pools, daemons, p, k);
      assert Matches(daemon, p, k, state[p].daemons[k]);
      assert PoolValid(state[p]);
      FewerClientsValid(state[p].daemons[k], svc);
      daemon.ReleaseService(svc);
      forall q, j | q in pools && j in pools[q].daemons && (q != p || j != k)
        ensures Matches(pools[q].daemons[j], q, j, state[q].daemons[j])
      {
        assert old(Matches(pools[q].daemons[j], q, j, state[q].daemons[j]));
      }
      Note(p, k, daemon);
    }

    /** One turn of the loop below, which began in state `s`: releases the service on one daemon of `todo`. */
    method ReleaseNext(ghost s: State, todo: set<GpuKey>, svc: Service) returns (rest: set<GpuKey>)
      requires Valid() && todo != {} && todo <= daemons.Keys && state == ReleasedExcept(s, svc, todo)
      modifies this`state, daemons.Values
      ensures Valid() && rest < todo && state == ReleasedExcept(s, svc, rest)
    {
      var k :| k in todo;
      OneMoreReleased(pools, daemons, s, svc, todo, k);
      ReleaseAt(k, svc);
      rest := todo - {k};
    }

    /** Visits every daemon of the index. */
    method ReleaseClient(svc: Service)
      requires Valid()
      modifies this`state, daemons.Values
      ensures Valid() && state == Released(old(state), svc)
    {
      var todo := daemons.Keys;
      AllToRelease(pools, daemons, state, svc);
      while todo != {}
        invariant Valid() && todo <= daemons.Keys
        invariant state == ReleasedExcept(old(state), svc, todo)
      {
        todo := ReleaseNext(old(state), todo, svc);
      }
      AllReleased(old(state), svc);
    }

    method Release(svc: Service)
      requires Valid()
      modifies this`state, daemons.Values
      ensures Valid() && state == Released(old(state), svc)
    {
      ReleaseClient(svc);
    }

    /** Whether some daemon of the pool has a client. */
    method InUse(name: string) returns (busy: bool)
      requires Valid() && name in pools
      ensures name in state && busy == !NoClients(state[name])
    {
      var inPool := pools[name].daemons;
      var todo := inPool.Keys;
      while todo != {}
        invariant todo <= inPool.Keys
        invariant forall k :: k in inPool && k !in todo ==> state[name].daemons[k].clients == map[]
      {
        var k :| k in todo;
        assert Matches(inPool[k], name, k, state[name].daemons[k]);
        if |inPool[k].clients| > 0 {
          return true;
        }
        todo := todo - {k};
      }
      return false;
    }

    /** Stops the daemons of a pool and takes them out of the index. */
    method StopDaemons(inPool: map<GpuKey, MPSDaemon>)
      modifies this`daemons, inPool.Values`status
      ensures daemons == old(daemons) - inPool.Keys
    {
      var todo := inPool.Keys;
      while todo != {}
        invariant todo <= inPool.Keys
        invariant daemons == old(daemons) - (inPool.Keys - todo)
      {
        var k :| k in todo;
        inPool[k].status := Stopped;
        daemons := daemons - {k};
        todo := todo - {k};
      }
    }

    /** Removes the pool and its daemons. */
    method RemovePool(name: string)
      requires Valid() && name in pools
      modifies this`pools, this`daemons, this`state, Objects()
      ensures Valid() && state == old(state) - {name}
    {
      CleanupKeepsAgreement(pools, daemons, state, name);
      var inPool := pools[name].daemons;
      assert forall k :: k in inPool ==> Matches(inPool[k], name, k, state[name].daemons[k]);
      StopDaemons(inPool);
      pools := pools - {name};
      state := state - {name};
      forall p, k | p in pools && k in pools[p].daemons
        ensures Matches(pools[p].daemons[k], p, k, state[p].daemons[k])
      {
        assert old(Matches(pools[p].daemons[k], p, k, state[p].daemons[k]));
        assert pools[p].daemons[k].pool != name;
      }
    }

    /** Removes the pool and its daemons, unless one of them still has a client. */
    method CleanupPool(name: string) returns (ok: bool)
      requires Valid()
      modifies this`pools, this`daemons, this`state, Objects()
      ensures Valid() && state == CleanedUp(old(state), name)
      ensures ok <==> name in old(state) ==>
                        forall k :: k in old(state)[name].daemons ==> old(state)[name].daemons[k].clients == map[]
      ensures state == if ok then old(state) - {name} else old(state)
    {
      if name !in pools {
        return true;
      }
      var busy := InUse(name);
      if busy {
        return false;
      }
      RemovePool(name);
      return true;
    }

    /** Finds the pool that has a daemon for the device. */
    method FindPool(k: GpuKey) returns (found: Option<string>)
      ensures found.Some? ==> Listed(pools, found.value, k)
      ensures found.None? ==> forall p :: !Listed(pools, p, k)
    {
      var todo := pools.Keys;
      while todo != {}
        invariant todo <= pools.Keys
        invariant forall p :: p in pools && p !in todo ==> !Listed(pools, p, k)
      {
        var p :| p in todo;
        if k in pools[p].daemons {
          return Some(p);
        }
        todo := todo - {p};
      }
      return None;
    }

    /** Stops the daemon and takes it out of its pool and of the index. */
    method Unfile(p: string, k: GpuKey)
      requires Valid() && Listed(pools, p, k)
      modifies this`pools, this`daemons, this`state, pools[p].daemons[k]
      ensures Valid() && pools.Keys == old(pools).Keys && k !in daemons && Objects() <= old(Objects())
      ensures p in old(state) && state == old(state)[p := WithoutDaemon(old(state)[p], k)]
    {
      var daemon := pools[p].daemons[k];
      UnfileKeepsAgreement(pools, daemons, p, k);
      WithoutDaemonStaysValid(state, p, k);
      daemon.status := Stopped;
      pools := WithUnfiled(pools, p, k);
      daemons := daemons - {k};
      state := state[p := WithoutDaemon(state[p], k)];
      forall q, j | q in pools && j in pools[q].daemons
        ensures Matches(pools[q].daemons[j], q, j, state[q].daemons[j])
      {
        assert old(Matches(pools[q].daemons[j], q, j, state[q].daemons[j]));
        assert pools[q].daemons[j] != daemon;
      }
    }

    /** Puts a new daemon in the place of one without clients; refuses one that has some, and a device
        without a daemon. */
    method RestartDaemon(k: GpuKey) returns (ok: bool)
      requires Valid()
      modifies this`pools, this`daemons, this`state, Objects()
      ensures Valid() && state == old(state)
      ensures ok <==> exists p :: p in state && k in state[p].daemons && state[p].daemons[k].clients == map[]
      ensures if ok then k in daemons && fresh(daemons[k]) else pools == old(pools) && daemons == old(daemons)
    {
      if k !in daemons {
        NotRestartable(pools, daemons, state, k);
        return false;
      }
      var daemon := daemons[k];
      IndexedIsRestartableIff(pools, daemons, state, k);
      assert Matches(daemon, daemon.pool, k, state[daemon.pool].daemons[k]);
      if |daemon.clients| > 0 {
        return false;
      }
      var found := FindPool(k);
      if found.None? {
        return false;
      }
      var p := found.value;
      RestartIsIdentity(pools, daemons, state, p, k);
      Unfile(p, k);
      var restarted := StartDaemon(p, k);
      return true;
    }
  }

  /** Pools and state have the same entries. */
  ghost predicate SameShape(pools: map<string, PoolConfig>, s: State) {
    && pools.Keys == s.Keys
    && forall p :: p in pools ==> pools[p].threadPct == s[p].threadPct && pools[p].daemons.Keys == s[p].daemons.Keys
  }

  /** A device that the index has no daemon for has none in any pool. */
  lemma OnlyIndexed(pools: map<string, PoolConfig>, daemons: map<GpuKey, MPSDaemon>, s: State, p: string, k: GpuKey)
    requires Indexed(pools, daemons) && SameShape(pools, s) && p in pools && k !in daemons
    ensures k !in s[p].daemons
  {
    assert Listed(pools, p, k) ==> k in daemons;
  }

  lemma NotInIndex(pools: map<string, PoolConfig>, daemons: map<GpuKey, MPSDaemon>, s: State, r: Request, k: GpuKey)
    requires Indexed(pools, daemons) && Separate(s, r) && k in r.gpus && SameShape(pools, s)
    requires r.pool in pools && k !in pools[r.pool].daemons
    ensures k !in daemons
  {
    assert forall j :: j in daemons ==> Listed(pools, daemons[j].pool, j);
  }

  /** A device that `p` has a daemon on, or that nobody has, is in no other pool. */
  lemma OnlyHere(pools: map<string, PoolConfig>, daemons: map<GpuKey, MPSDaemon>, s: State, p: string, k: GpuKey)
    requires Indexed(pools, daemons) && SameShape(pools, s)
    requires k in daemons ==> daemons[k].pool == p
    ensures forall q :: q in s && q != p ==> k !in s[q].daemons
    ensures k !in daemons && p in s ==> k !in s[p].daemons
  {
    assert forall q :: Listed(pools, q, k) ==> FiledAt(pools, daemons, q, k);
    assert forall q :: q in s && k in s[q].daemons ==> Listed(pools, q, k);
  }

  lemma IndexObjects(pools: map<string, PoolConfig>, daemons: map<GpuKey, MPSDaemon>, daemon: MPSDaemon, k: GpuKey)
    requires Indexed(pools, daemons) && k !in daemons
    requires forall p, j :: p in pools && j in pools[p].daemons ==> pools[p].daemons[j] != daemon
    ensures forall j :: j in daemons ==> daemons[j] != daemon
    ensures forall p :: p in pools ==> k !in pools[p].daemons
  {
    forall j | j in daemons
      ensures daemons[j] != daemon
    {
      assert Listed(pools, daemons[j].pool, j);
      assert FiledAt(pools, daemons, daemons[j].pool, j);
    }
    assert forall p :: p in pools && k in pools[p].daemons ==> Listed(pools, p, k);
  }

  /** At `(q, j)` a step left object and value as they were. */
  ghost predicate Elsewhere(pools: map<string, PoolConfig>, s: State, pools': map<string, PoolConfig>, s': State,
                            q: string, j: GpuKey) {
    && Listed(pools, q, j) && Listed(pools', q, j) && pools'[q].daemons[j] == pools[q].daemons[j]
    && q in s && q in s' && j in s[q].daemons && j in s'[q].daemons && s'[q].daemons[j] == s[q].daemons[j]
  }

  lemma StartedElsewhere(pools: map<string, PoolConfig>, s: State, p: string, daemon: MPSDaemon)
    requires SameShape(pools, s) && p in pools
    ensures var pools', s' := WithStarted(pools, p, daemon), s[p := WithDaemon(s[p], daemon.key, Daemon(true, map[]))];
            && SameShape(pools', s')
            && forall q, j {:trigger Elsewhere(pools, s, pools', s', q, j)} ::
                 q in pools' && j in pools'[q].daemons && (q != p || j != daemon.key) ==>
                   Elsewhere(pools, s, pools', s', q, j)
  {
  }

  /** What `FileDaemon` needs of the values it writes. */
  lemma StartKeepsAgreement(pools: map<string, PoolConfig>, daemons: map<GpuKey, MPSDaemon>, s: State, p: string,
                            daemon: MPSDaemon)
    requires Indexed(pools, daemons) && MpsSpec.Valid(s) && SameShape(pools, s)
    requires p in pools && daemon.pool == p && daemon.key !in daemons
    requires forall q, j :: q in pools && j in pools[q].daemons ==> pools[q].daemons[j] != daemon
    ensures Indexed(WithStarted(pools, p, daemon), daemons[daemon.key := daemon])
    ensures MpsSpec.Valid(s[p := WithDaemon(s[p], daemon.key, Daemon(true, map[]))])
  {
    IndexObjects(pools, daemons, daemon, daemon.key);
    StartStaysIndexedIff(pools, daemons, p, daemon);
    OnlyHere(pools, daemons, s, p, daemon.key);
    WithDaemonStaysValid(s, p, daemon.key, Daemon(true, map[]));
  }

  lemma StartThenAdd(s: State, p: string, svc: Service, n: nat, k: GpuKey)
    requires p in s && k !in s[p].daemons
    ensures var started := s[p := WithDaemon(s[p], k, Daemon(true, map[]))];
            started[p := AddClient(started[p], svc, n, k)] == s[p := AddClient(s[p], svc, n, k)]
  {
    var d := Daemon(true, map[]);
    var d' := d.(clients := d.clients[ClientId(svc, n) := Client(svc, k, s[p].threadPct)]);
    assert s[p].daemons[k := d][k := d'] == s[p].daemons[k := d'];
  }

  function AfterPlacing(s: State, r: Request, ks: seq<GpuKey>): State
    requires r.pool in s
  {
    s[r.pool := Placed(s[r.pool], r.service, ks, |ks|)]
  }

  lemma NonePlaced(s: State, r: Request)
    requires r.pool in s
    ensures AfterPlacing(s, r, []) == s && Placements(s[r.pool], r.service, r.gpus, [])
  {
    assert s[r.pool := s[r.pool]] == s;
  }

  lemma OneMorePlaced(s: State, r: Request, ks: seq<GpuKey>, k: GpuKey)
    requires r.pool in s && Placements(s[r.pool], r.service, r.gpus, ks) && Separate(AfterPlacing(s, r, ks), r)
    requires Chosen(AfterPlacing(s, r, ks)[r.pool], r.gpus, k)
    ensures Placements(s[r.pool], r.service, r.gpus, ks + [k])
    ensures var s1 := AfterPlacing(s, r, ks);
            s1[r.pool := AddClient(s1[r.pool], r.service, |ks|, k)] == AfterPlacing(s, r, ks + [k])
    ensures Separate(AfterPlacing(s, r, ks + [k]), r)
  {
    forall n | 0 <= n <= |ks|
      ensures PlacementAt(s[r.pool], r.service, r.gpus, ks + [k], n)
    {
      PlacedPrefix(s[r.pool], r.service, ks, k, n);
      assert n < |ks| ==> PlacementAt(s[r.pool], r.service, r.gpus, ks, n);
    }
    PlacedPrefix(s[r.pool], r.service, ks, k, |ks|);
    assert forall p, j :: p in s && p != r.pool && j in s[p].daemons ==> j in AfterPlacing(s, r, ks)[p].daemons;
  }

  lemma {:induction false} PlacedPrefix(pool: Pool, svc: Service, ks: seq<GpuKey>, k: GpuKey, n: nat)
    requires n <= |ks|
    ensures Placed(pool, svc, ks + [k], n) == Placed(pool, svc, ks, n)
  {
    if n > 0 {
      PlacedPrefix(pool, svc, ks, k, n - 1);
    }
  }

  lemma ReleasedTwice(s: State, svc: Service)
    ensures Released(Released(s, svc), svc) == Released(s, svc)
  {
    forall p | p in s
      ensures ReleasedPool(ReleasedPool(s[p], svc), svc) == ReleasedPool(s[p], svc)
    {
      forall k | k in s[p].daemons
        ensures WithoutService(WithoutService(s[p].daemons[k], svc), svc) == WithoutService(s[p].daemons[k], svc)
      {
        var d := s[p].daemons[k];
        assert WithoutService(WithoutService(d, svc), svc).clients == WithoutService(d, svc).clients;
      }
      assert ReleasedPool(ReleasedPool(s[p], svc), svc).daemons == ReleasedPool(s[p], svc).daemons;
    }
  }

  /** The daemons in `todo` are still to be visited. */
  function ReleasedPoolExcept(pool: Pool, svc: Service, todo: set<GpuKey>): Pool {
    pool.(daemons := map k | k in pool.daemons ::
                       if k in todo then pool.daemons[k] else WithoutService(pool.daemons[k], svc))
  }

  function ReleasedExcept(s: State, svc: Service, todo: set<GpuKey>): State {
    map p | p in s :: ReleasedPoolExcept(s[p], svc, todo)
  }

  lemma AllToRelease(pools: map<string, PoolConfig>, daemons: map<GpuKey, MPSDaemon>, s: State, svc: Service)
    requires Indexed(pools, daemons) && SameShape(pools, s)
    ensures ReleasedExcept(s, svc, daemons.Keys) == s
  {
    forall p | p in s
      ensures ReleasedPoolExcept(s[p], svc, daemons.Keys) == s[p]
    {
      assert forall k :: k in s[p].daemons ==> Listed(pools, p, k) && FiledAt(pools, daemons, p, k);
      assert ReleasedPoolExcept(s[p], svc, daemons.Keys).daemons == s[p].daemons;
    }
  }

  function WithRelease(s: State, p: string, k: GpuKey, svc: Service): State
    requires p in s && k in s[p].daemons
  {
    s[p := WithDaemon(s[p], k, WithoutService(s[p].daemons[k], svc))]
  }

  lemma AllReleased(s: State, svc: Service)
    ensures ReleasedExcept(s, svc, {}) == Released(s, svc)
  {
    assert forall p :: p in s ==> ReleasedPoolExcept(s[p], svc, {}).daemons == ReleasedPool(s[p], svc).daemons;
  }

  lemma OneMoreReleased(pools: map<string, PoolConfig>, daemons: map<GpuKey, MPSDaemon>, s: State, svc: Service,
                        todo: set<GpuKey>, k: GpuKey)
    requires Indexed(pools, daemons) && k in daemons && k in todo && SameShape(pools, ReleasedExcept(s, svc, todo))
    ensures var p, s1 := daemons[k].pool, ReleasedExcept(s, svc, todo);
            p in s1 && k in s1[p].daemons && WithRelease(s1, p, k, svc) == ReleasedExcept(s, svc, todo - {k})
  {
    var p := daemons[k].pool;
    assert Listed(pools, p, k);
    OnlyHere(pools, daemons, ReleasedExcept(s, svc, todo), p, k);
    var s1, s2 := ReleasedExcept(s, svc, todo), ReleasedExcept(s, svc, todo - {k});
    assert s2[p].daemons == s1[p].daemons[k := WithoutService(s1[p].daemons[k], svc)];
    forall q | q in s && q != p
      ensures s2[q] == s1[q]
    {
      assert s2[q].daemons == s1[q].daemons;
    }
  }

  /** Cleaning up a pool takes exactly its daemons out of the index. */
  lemma CleanupKeepsAgreement(pools: map<string, PoolConfig>, daemons: map<GpuKey, MPSDaemon>, s: State, name: string)
    requires Indexed(pools, daemons) && MpsSpec.Valid(s) && SameShape(pools, s) && name in pools
    ensures Indexed(pools - {name}, daemons - pools[name].daemons.Keys)
    ensures MpsSpec.Valid(s - {name}) && SameShape(pools - {name}, s - {name})
  {
    var pools', daemons' := pools - {name}, daemons - pools[name].daemons.Keys;
    assert forall p, k :: Listed(pools, p, k) ==> FiledAt(pools, daemons, p, k);
    forall p, k | Listed(pools', p, k)
      ensures FiledAt(pools', daemons', p, k)
    {
      assert Listed(pools, p, k);
      assert k in pools[name].daemons ==> Listed(pools, name, k);
    }
    forall k | k in daemons'
      ensures Listed(pools', daemons'[k].pool, k) && daemons'[k].key == k
    {
      assert Listed(pools, daemons[k].pool, k);
    }
    FewerStayDisjoint(s, s - {name});
  }

  function WithoutDaemon(pool: Pool, k: GpuKey): Pool {
    pool.(daemons := pool.daemons - {k})
  }

  /** The device has a daemon, and that has no clients. */
  ghost predicate Restartable(s: State, k: GpuKey) {
    exists p :: p in s && k in s[p].daemons && s[p].daemons[k].clients == map[]
  }

  lemma NotRestartable(pools: map<string, PoolConfig>, daemons: map<GpuKey, MPSDaemon>, s: State, k: GpuKey)
    requires Indexed(pools, daemons) && SameShape(pools, s) && k !in daemons
    ensures !Restartable(s, k)
  {
    assert forall p :: Listed(pools, p, k) ==> FiledAt(pools, daemons, p, k);
    assert forall p :: p in s && k in s[p].daemons ==> Listed(pools, p, k);
  }

  lemma IndexedIsRestartableIff(pools: map<string, PoolConfig>, daemons: map<GpuKey, MPSDaemon>, s: State, k: GpuKey)
    requires Indexed(pools, daemons) && SameShape(pools, s) && k in daemons
    ensures Listed(pools, daemons[k].pool, k) && FiledAt(pools, daemons, daemons[k].pool, k)
    ensures daemons[k].pool in s && k in s[daemons[k].pool].daemons
    ensures Restartable(s, k) <==> s[daemons[k].pool].daemons[k].clients == map[]
    ensures forall q :: Listed(pools, q, k) ==> q == daemons[k].pool
  {
    assert Listed(pools, daemons[k].pool, k);
    assert forall q :: Listed(pools, q, k) ==> FiledAt(pools, daemons, q, k);
    assert forall q :: q in s && k in s[q].daemons ==> Listed(pools, q, k);
  }

  lemma WithoutDaemonStaysValid(s: State, p: string, k: GpuKey)
    requires MpsSpec.Valid(s) && p in s
    ensures MpsSpec.Valid(s[p := WithoutDaemon(s[p], k)])
  {
    assert PoolValid(s[p]);
    FewerStayDisjoint(s, s[p := WithoutDaemon(s[p], k)]);
  }

  function WithUnfiled(pools: map<string, PoolConfig>, p: string, k: GpuKey): map<string, PoolConfig>
    requires p in pools
  {
    pools[p := pools[p].(daemons := pools[p].daemons - {k})]
  }

  /** Taking a daemon out of its pool and out of the index keeps the two in agreement. */
  lemma UnfileKeepsAgreement(pools: map<string, PoolConfig>, daemons: map<GpuKey, MPSDaemon>, p: string, k: GpuKey)
    requires Indexed(pools, daemons) && Listed(pools, p, k)
    ensures Indexed(WithUnfiled(pools, p, k), daemons - {k})
  {
    var pools', daemons' := WithUnfiled(pools, p, k), daemons - {k};
    assert forall q, j :: Listed(pools, q, j) ==> FiledAt(pools, daemons, q, j);
    forall q, j | Listed(pools', q, j)
      ensures FiledAt(pools', daemons', q, j)
    {
      assert Listed(pools, q, j);
    }
    forall j | j in daemons'
      ensures Listed(pools', daemons'[j].pool, j) && daemons'[j].key == j
    {
      assert Listed(pools, daemons[j].pool, j);
    }
  }

  /** Every daemon runs, so stopping one without clients and starting another in its place changes nothing. */
  lemma RestartIsIdentity(pools: map<string, PoolConfig>, daemons: map<GpuKey, MPSDaemon>, s: State, p: string,
                          k: GpuKey)
    requires Indexed(pools, daemons) && MpsSpec.Valid(s) && SameShape(pools, s) && Listed(pools, p, k)
    requires s[p].daemons[k].clients == map[]
    ensures var s1 := s[p := WithoutDaemon(s[p], k)]; s1[p := WithDaemon(s1[p], k, Daemon(true, map[]))] == s
  {
    assert PoolValid(s[p]) && DaemonValid(s[p].daemons[k]);
    assert (s[p].daemons - {k})[k := s[p].daemons[k]] == s[p].daemons;
  }
}
