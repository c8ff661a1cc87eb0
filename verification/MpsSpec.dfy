/** The MPS manager on values: pools of daemons, each with its clients. */
module MpsSpec {
  import opened Common
  import opened MapSums
  import opened Capacity

  const MAX_CLIENTS := 48

  /** `namespace/service-n`. */
  datatype ClientId = ClientId(service: Service, n: nat)

  /** How the source spells an id. */
  function Spelled(id: ClientId): string {
    Numbered(Join(id.service.ns, id.service.name), id.n)
  }

  /** Ids may be kept as pairs: on namespaces without a slash the spelling loses nothing. */
  lemma SpelledInjective(a: ClientId, b: ClientId)
    requires '/' !in a.service.ns && '/' !in b.service.ns
    ensures Spelled(a) == a.service.ns + "/" + a.service.name + "-" + Decimal(a.n)
    ensures Spelled(a) == Spelled(b) <==> a == b
  {
    NumberedInjective(Join(a.service.ns, a.service.name), a.n, Join(b.service.ns, b.service.name), b.n);
    JoinInjective(a.service.ns, a.service.name, b.service.ns, b.service.name);
  }

  datatype Client = Client(service: Service, gpu: GpuKey, threadPct: int)

  datatype Daemon = Daemon(running: bool, clients: map<ClientId, Client>)

  datatype Pool = Pool(threadPct: int, daemons: map<GpuKey, Daemon>)

  type State = map<string, Pool>

  /** What one `Allocate` is asked: `gpus` are the devices of the pool, in the pool's order. */
  datatype Request = Request(pool: string, service: Service, count: nat, gpus: seq<GpuKey>)

  // ---------------------------------------------------------------- allocation

  ghost predicate HasRoom(pool: Pool, k: GpuKey) {
    k in pool.daemons && pool.daemons[k].running && |pool.daemons[k].clients| < MAX_CLIENTS
  }

  /** A device that the search may come up with: any whose daemon has room, or, if there is none, the
      first device of the pool without a daemon. */
  ghost predicate Chosen(pool: Pool, gpus: seq<GpuKey>, k: GpuKey) {
    || HasRoom(pool, k)
    || (&& (forall j :: !HasRoom(pool, j))
        && exists i :: && 0 <= i < |gpus| && gpus[i] == k && k !in pool.daemons
                       && forall j :: 0 <= j < i ==> gpus[j] in pool.daemons)
  }

  ghost predicate Exhausted(pool: Pool, gpus: seq<GpuKey>) {
    (forall j :: !HasRoom(pool, j)) && forall k :: k in gpus ==> k in pool.daemons
  }

  /** No daemon that runs can take another client. */
  ghost predicate AllFull(pool: Pool) {
    forall k :: k in pool.daemons && pool.daemons[k].running ==> |pool.daemons[k].clients| >= 48
  }

  /** A daemon that runs with fewer than 48 clients comes first; without one, the first device of the list that has
      no daemon. */
  lemma ChosenIs(pool: Pool, gpus: seq<GpuKey>, k: GpuKey)
    requires Chosen(pool, gpus, k)
    ensures k in pool.daemons ==> pool.daemons[k].running && |pool.daemons[k].clients| < 48
    ensures k !in pool.daemons ==>
              && AllFull(pool)
              && exists i :: 0 <= i < |gpus| && gpus[i] == k && forall j :: 0 <= j < i ==> gpus[j] in pool.daemons
  {
    if k !in pool.daemons {
      assert forall j :: j in pool.daemons ==> !HasRoom(pool, j);
    }
  }

  lemma ExhaustedIs(pool: Pool, gpus: seq<GpuKey>)
    requires Exhausted(pool, gpus)
    ensures AllFull(pool) && forall k :: k in gpus ==> k in pool.daemons
  {
    assert forall j :: j in pool.daemons ==> !HasRoom(pool, j);
  }

  function DaemonAt(pool: Pool, k: GpuKey): Daemon {
    if k in pool.daemons then pool.daemons[k] else Daemon(true, map[])
  }

  function WithDaemon(pool: Pool, k: GpuKey, d: Daemon): Pool {
    pool.(daemons := pool.daemons[k := d])
  }

  /** Client number `n` of the service goes to device `k`. An id that is taken there is overwritten. */
  function AddClient(pool: Pool, svc: Service, n: nat, k: GpuKey): Pool {
    var d := DaemonAt(pool, k);
    WithDaemon(pool, k, d.(clients := d.clients[ClientId(svc, n) := Client(svc, k, pool.threadPct)]))
  }

  /** The pool after the clients `0..n` went to the devices `ks[..n]`. */
  function Placed(pool: Pool, svc: Service, ks: seq<GpuKey>, n: nat): Pool
    requires n <= |ks|
  {
    if n == 0 then pool else AddClient(Placed(pool, svc, ks, n - 1), svc, n - 1, ks[n - 1])
  }

  ghost predicate PlacementAt(pool: Pool, svc: Service, gpus: seq<GpuKey>, ks: seq<GpuKey>, n: nat) {
    n < |ks| && Chosen(Placed(pool, svc, ks, n), gpus, ks[n])
  }

  ghost predicate Placements(pool: Pool, svc: Service, gpus: seq<GpuKey>, ks: seq<GpuKey>) {
    forall n {:trigger PlacementAt(pool, svc, gpus, ks, n)} :: 0 <= n < |ks| ==> PlacementAt(pool, svc, gpus, ks, n)
  }

  function WithoutService(d: Daemon, svc: Service): Daemon {
    d.(clients := map id | id in d.clients && d.clients[id].service != svc :: d.clients[id])
  }

  function ReleasedPool(pool: Pool, svc: Service): Pool {
    pool.(daemons := map k | k in pool.daemons :: WithoutService(pool.daemons[k], svc))
  }

  function Released(s: State, svc: Service): State {
    map p | p in s :: ReleasedPool(s[p], svc)
  }

  /** Success places every client; failure comes when no device can take the next one, and, unless that
      was the first, releases the service. */
  ghost predicate AllocateVia(s: State, r: Request, ks: seq<GpuKey>, s': State, ok: bool) {
    if r.pool !in s then !ok && s' == s
    else
      && |ks| <= r.count && Placements(s[r.pool], r.service, r.gpus, ks)
      && var pool := Placed(s[r.pool], r.service, ks, |ks|);
         if ok then |ks| == r.count && s' == s[r.pool := pool]
         else && |ks| < r.count && Exhausted(pool, r.gpus)
              && s' == if ks == [] then s[r.pool := pool] else Released(s[r.pool := pool], r.service)
  }

  // ---------------------------------------------------------------- the invariant

  ghost predicate FiledUnder(d: Daemon, id: ClientId) {
    id in d.clients ==> d.clients[id].service == id.service
  }

  /** Every daemon runs, has at most its clients, and every client is filed under its own service. */
  ghost predicate DaemonValid(d: Daemon) {
    d.running && |d.clients| <= MAX_CLIENTS && forall id {:trigger FiledUnder(d, id)} :: FiledUnder(d, id)
  }

  ghost predicate PoolValid(pool: Pool) {
    forall k :: k in pool.daemons ==> DaemonValid(pool.daemons[k])
  }

  ghost predicate Share(s: State, p: string, q: string, k: GpuKey) {
    p in s && q in s && k in s[p].daemons && k in s[q].daemons
  }

  /** No device has daemons in two pools. */
  ghost predicate Disjoint(s: State) {
    forall p, q, k {:trigger Share(s, p, q, k)} :: Share(s, p, q, k) ==> p == q
  }

  ghost predicate Valid(s: State) {
    (forall p :: p in s ==> PoolValid(s[p])) && Disjoint(s)
  }

  /** Pools stay apart when only one of them gains devices, and none that another pool has. */
  lemma StaysDisjoint(s: State, name: string, s': State)
    requires Disjoint(s)
    requires forall p :: p in s' && p != name ==> p in s && s'[p].daemons.Keys <= s[p].daemons.Keys
    requires name in s' ==> forall p :: p in s && p != name ==> s[p].daemons.Keys !! s'[name].daemons.Keys
    ensures Disjoint(s')
  {
    forall p, q, k | Share(s', p, q, k)
      ensures p == q
    {
      assert p != name && q != name ==> Share(s, p, q, k);
    }
  }

  lemma FewerStayDisjoint(s: State, s': State)
    requires Disjoint(s)
    requires forall p :: p in s' ==> s'[p].daemons == map[] || (p in s && s'[p].daemons.Keys <= s[p].daemons.Keys)
    ensures Disjoint(s')
  {
    forall p, q, k | Share(s', p, q, k)
      ensures p == q
    {
      assert Share(s, p, q, k);
    }
  }

  lemma WithDaemonStaysValid(s: State, p: string, k: GpuKey, d: Daemon)
    requires Valid(s) && p in s && DaemonValid(d)
    requires forall q :: q in s && q != p ==> k !in s[q].daemons
    ensures Valid(s[p := WithDaemon(s[p], k, d)])
  {
    assert PoolValid(s[p]);
    forall q | q in s && q != p
      ensures s[q].daemons.Keys !! WithDaemon(s[p], k, d).daemons.Keys
    {
      assert forall j :: j in s[p].daemons && j in s[q].daemons ==> Share(s, p, q, j);
    }
    StaysDisjoint(s, p, s[p := WithDaemon(s[p], k, d)]);
  }

  /** The devices asked for have no daemon in another pool. */
  ghost predicate Separate(s: State, r: Request) {
    forall p, k :: p in s && p != r.pool && k in s[p].daemons ==> k !in r.gpus
  }

  ghost function Loads(pool: Pool): map<GpuKey, int> {
    map k | k in pool.daemons :: |pool.daemons[k].clients|
  }

  /** The clients that a pool can still take: 48 a device, started or not. */
  ghost function RoomIn(pool: Pool, gpus: seq<GpuKey>): int {
    Room(Loads(pool), MAX_CLIENTS, Devices(gpus))
  }

  /** No client of the service has one of the ids that an allocation hands out. */
  ghost predicate Fresh(pool: Pool, svc: Service) {
    forall k, n :: k in pool.daemons ==> ClientId(svc, n) !in pool.daemons[k].clients
  }

  lemma ChosenIsPlaceable(pool: Pool, gpus: seq<GpuKey>, k: GpuKey)
    requires PoolValid(pool) && Chosen(pool, gpus, k)
    ensures Bounded(Loads(pool), MAX_CLIENTS) && Placeable(Loads(pool), MAX_CLIENTS, Devices(gpus), k)
  {
    if !HasRoom(pool, k) {
      forall j | j in Loads(pool)
        ensures Loads(pool)[j] >= MAX_CLIENTS
      {
        assert !HasRoom(pool, j);
        assert DaemonValid(pool.daemons[j]);
      }
    }
  }

  lemma ClientsWith(d: Daemon, id: ClientId, c: Client)
    ensures |d.clients[id := c]| == |d.clients| + if id in d.clients then 0 else 1
  {
    assert d.clients[id := c].Keys == d.clients.Keys + {id};
  }

  lemma OneMoreClientValid(d: Daemon, id: ClientId, c: Client)
    requires DaemonValid(d) && |d.clients| < MAX_CLIENTS && c.service == id.service
    ensures DaemonValid(d.(clients := d.clients[id := c]))
  {
    ClientsWith(d, id, c);
    var d' := d.(clients := d.clients[id := c]);
    forall j
      ensures FiledUnder(d', j)
    {
      assert FiledUnder(d, j);
    }
  }

  lemma AddClientValid(pool: Pool, svc: Service, n: nat, gpus: seq<GpuKey>, k: GpuKey)
    requires PoolValid(pool) && Chosen(pool, gpus, k)
    ensures PoolValid(AddClient(pool, svc, n, k))
  {
    ChosenIsPlaceable(pool, gpus, k);
    assert DaemonValid(DaemonAt(pool, k));
    OneMoreClientValid(DaemonAt(pool, k), ClientId(svc, n), Client(svc, k, pool.threadPct));
  }

  lemma AddClientDevices(pool: Pool, svc: Service, n: nat, gpus: seq<GpuKey>, k: GpuKey)
    requires Chosen(pool, gpus, k)
    ensures AddClient(pool, svc, n, k).daemons.Keys == pool.daemons.Keys + {k}
    ensures k in pool.daemons || k in gpus
  {
  }

  /** A new id adds one to the load of its device, an overwritten one leaves all loads as they were. */
  lemma AddClientLoads(pool: Pool, svc: Service, n: nat, k: GpuKey)
    ensures Loads(AddClient(pool, svc, n, k))
         == if ClientId(svc, n) in DaemonAt(pool, k).clients then Loads(pool) else PlacedOn(Loads(pool), k)
  {
    ClientsWith(DaemonAt(pool, k), ClientId(svc, n), Client(svc, k, pool.threadPct));
    assert LoadOf(Loads(pool), k) == |DaemonAt(pool, k).clients|;
  }

  /** A new id takes one unit of room, an overwritten one takes none. */
  lemma AddClientTakesRoom(pool: Pool, svc: Service, n: nat, gpus: seq<GpuKey>, k: GpuKey)
    requires PoolValid(pool) && Chosen(pool, gpus, k)
    ensures RoomIn(AddClient(pool, svc, n, k), gpus)
         == RoomIn(pool, gpus) - if ClientId(svc, n) in DaemonAt(pool, k).clients then 0 else 1
  {
    AddClientLoads(pool, svc, n, k);
    ChosenIsPlaceable(pool, gpus, k);
    RoomPlace(Loads(pool), MAX_CLIENTS, Devices(gpus), k);
  }

  lemma RoomIffNotExhausted(pool: Pool, gpus: seq<GpuKey>)
    requires PoolValid(pool)
    ensures RoomIn(pool, gpus) >= 0
    ensures RoomIn(pool, gpus) == 0 <==> Exhausted(pool, gpus)
  {
    var loads, devices := Loads(pool), Devices(gpus);
    assert Bounded(loads, MAX_CLIENTS) by {
      assert forall k :: k in pool.daemons ==> DaemonValid(pool.daemons[k]);
    }
    RoomIffPlaceable(loads, MAX_CLIENTS, devices);
    if !Exhausted(pool, gpus) {
      if j :| HasRoom(pool, j) {
        assert Placeable(loads, MAX_CLIENTS, devices, j);
      } else {
        var k :| k in gpus && k !in pool.daemons;
        forall j | j in loads
          ensures loads[j] >= MAX_CLIENTS
        {
          assert !HasRoom(pool, j) && DaemonValid(pool.daemons[j]);
        }
        assert Placeable(loads, MAX_CLIENTS, devices, k);
      }
    } else {
      forall k
        ensures !Placeable(loads, MAX_CLIENTS, devices, k)
      {
        assert !HasRoom(pool, k);
        assert k in pool.daemons ==> DaemonValid(pool.daemons[k]);
      }
    }
  }

  lemma {:induction false} PlacedValid(pool: Pool, svc: Service, gpus: seq<GpuKey>, ks: seq<GpuKey>, n: nat)
    requires PoolValid(pool) && Placements(pool, svc, gpus, ks) && n <= |ks|
    ensures PoolValid(Placed(pool, svc, ks, n))
  {
    if n > 0 {
      assert PlacementAt(pool, svc, gpus, ks, n - 1);
      PlacedValid(pool, svc, gpus, ks, n - 1);
      AddClientValid(Placed(pool, svc, ks, n - 1), svc, n - 1, gpus, ks[n - 1]);
    }
  }

  /** Daemons are only started on devices of the pool. */
  lemma {:induction false} PlacedDevices(pool: Pool, svc: Service, gpus: seq<GpuKey>, ks: seq<GpuKey>, n: nat)
    requires PoolValid(pool) && Placements(pool, svc, gpus, ks) && n <= |ks|
    ensures pool.daemons.Keys <= Placed(pool, svc, ks, n).daemons.Keys <= pool.daemons.Keys + Devices(gpus)
  {
    if n > 0 {
      assert PlacementAt(pool, svc, gpus, ks, n - 1);
      PlacedDevices(pool, svc, gpus, ks, n - 1);
      PlacedValid(pool, svc, gpus, ks, n - 1);
      AddClientDevices(Placed(pool, svc, ks, n - 1), svc, n - 1, gpus, ks[n - 1]);
    }
  }

  ghost predicate HoldsId(pool: Pool, k: GpuKey, id: ClientId) {
    k in pool.daemons && id in pool.daemons[k].clients
  }

  /** After `n` placements client `i < n` of the service is on device `ks[i]`, besides where it was before. */
  lemma {:induction false} PlacedHolds(pool: Pool, svc: Service, ks: seq<GpuKey>, n: nat, k: GpuKey, i: nat)
    requires n <= |ks|
    ensures HoldsId(Placed(pool, svc, ks, n), k, ClientId(svc, i))
       <==> (i < n && ks[i] == k) || HoldsId(pool, k, ClientId(svc, i))
  {
    if n > 0 {
      PlacedHolds(pool, svc, ks, n - 1, k, i);
    }
  }

  /** How many of the first `n` placements overwrite a client that the service had on that device before. */
  ghost function Overwrites(pool: Pool, svc: Service, ks: seq<GpuKey>, n: nat): nat
    requires n <= |ks|
  {
    if n == 0 then 0
    else Overwrites(pool, svc, ks, n - 1) + if HoldsId(pool, ks[n - 1], ClientId(svc, n - 1)) then 1 else 0
  }

  /** `room` is a name for the room there is after each placement. */
  ghost predicate RoomAt(pool: Pool, svc: Service, gpus: seq<GpuKey>, ks: seq<GpuKey>, room: nat -> int, n: nat) {
    n <= |ks| ==> room(n) == RoomIn(Placed(pool, svc, ks, n), gpus)
  }

  ghost predicate RoomsAre(pool: Pool, svc: Service, gpus: seq<GpuKey>, ks: seq<GpuKey>, room: nat -> int) {
    forall n {:trigger RoomAt(pool, svc, gpus, ks, room, n)} :: RoomAt(pool, svc, gpus, ks, room, n)
  }

  /** A placement takes one unit of room, or none if the service had that client there before. */
  lemma PlacementTakesRoom(pool: Pool, svc: Service, gpus: seq<GpuKey>, ks: seq<GpuKey>, room: nat -> int, n: nat)
    requires PoolValid(pool) && Placements(pool, svc, gpus, ks) && n < |ks| && RoomsAre(pool, svc, gpus, ks, room)
    ensures room(n + 1) == room(n) - if HoldsId(pool, ks[n], ClientId(svc, n)) then 0 else 1
  {
    PlacedValid(pool, svc, gpus, ks, n);
    assert PlacementAt(pool, svc, gpus, ks, n);
    AddClientTakesRoom(Placed(pool, svc, ks, n), svc, n, gpus, ks[n]);
    PlacedHolds(pool, svc, ks, n, ks[n], n);
    assert RoomAt(pool, svc, gpus, ks, room, n) && RoomAt(pool, svc, gpus, ks, room, n + 1);
  }

  lemma {:induction false} PlacementsTakeRoom(pool: Pool, svc: Service, gpus: seq<GpuKey>, ks: seq<GpuKey>,
                                              room: nat -> int, n: nat)
    requires PoolValid(pool) && Placements(pool, svc, gpus, ks) && n <= |ks| && RoomsAre(pool, svc, gpus, ks, room)
    ensures room(n) == room(0) - n + Overwrites(pool, svc, ks, n)
  {
    if n > 0 {
      PlacementsTakeRoom(pool, svc, gpus, ks, room, n - 1);
      PlacementTakesRoom(pool, svc, gpus, ks, room, n - 1);
    }
  }

  /** For any service: the placements take exactly one unit of room each, less those that overwrite. */
  lemma PlacedRoom(pool: Pool, svc: Service, gpus: seq<GpuKey>, ks: seq<GpuKey>)
    requires PoolValid(pool) && Placements(pool, svc, gpus, ks)
    ensures RoomIn(Placed(pool, svc, ks, |ks|), gpus) == RoomIn(pool, gpus) - |ks| + Overwrites(pool, svc, ks, |ks|)
  {
    var room := (n: nat) => if n <= |ks| then RoomIn(Placed(pool, svc, ks, n), gpus) else 0;
    PlacementsTakeRoom(pool, svc, gpus, ks, room, |ks|);
  }

  // ---------------------------------------------------------------- the outcome

  /** Any service gets what it asks for if and only if there is room for the clients that do not overwrite
      one it has. */
  lemma AllocateSucceedsIff(s: State, r: Request, ks: seq<GpuKey>, s': State, ok: bool)
    requires Valid(s) && AllocateVia(s, r, ks, s', ok)
    ensures ok <==> r.pool in s && r.count - Overwrites(s[r.pool], r.service, ks, |ks|) <= RoomIn(s[r.pool], r.gpus)
  {
    if r.pool in s {
      assert PoolValid(s[r.pool]);
      PlacedValid(s[r.pool], r.service, r.gpus, ks, |ks|);
      PlacedRoom(s[r.pool], r.service, r.gpus, ks);
      RoomIffNotExhausted(Placed(s[r.pool], r.service, ks, |ks|), r.gpus);
    }
  }

  /** The ids below `n` that the service has in the pool already. */
  ghost function HeldBelow(pool: Pool, svc: Service, n: nat): set<nat> {
    set i: nat, k | k in pool.daemons && 0 <= i < n && HoldsId(pool, k, ClientId(svc, i)) :: i
  }

  lemma {:induction false} OverwritesAreHeld(pool: Pool, svc: Service, ks: seq<GpuKey>, n: nat)
    requires n <= |ks|
    ensures Overwrites(pool, svc, ks, n) <= |HeldBelow(pool, svc, n)|
  {
    if n > 0 {
      OverwritesAreHeld(pool, svc, ks, n - 1);
      var before, now := HeldBelow(pool, svc, n - 1), HeldBelow(pool, svc, n);
      assert n - 1 !in before;
      if HoldsId(pool, ks[n - 1], ClientId(svc, n - 1)) {
        assert n - 1 in now;
        SubsetSize(before + {n - 1}, now);
      } else {
        SubsetSize(before, now);
      }
    }
  }

  /** What can be told before the call. Room for the request is enough for any service; what succeeds has
      room for all but the ids that the service holds; so for a service that holds none the two are one. */
  lemma AllocateOutcome(s: State, r: Request, ks: seq<GpuKey>, s': State, ok: bool)
    requires Valid(s) && AllocateVia(s, r, ks, s', ok) && r.pool in s
    ensures r.count <= RoomIn(s[r.pool], r.gpus) ==> ok
    ensures ok ==> r.count - |HeldBelow(s[r.pool], r.service, r.count)| <= RoomIn(s[r.pool], r.gpus)
    ensures Fresh(s[r.pool], r.service) ==> (ok <==> r.count <= RoomIn(s[r.pool], r.gpus))
  {
    AllocateSucceedsIff(s, r, ks, s', ok);
    OverwritesAreHeld(s[r.pool], r.service, ks, |ks|);
    if Fresh(s[r.pool], r.service) {
      assert HeldBelow(s[r.pool], r.service, |ks|) == {};
    }
  }

  /** Clients from an earlier request can make more succeed than there is room for: with room for one client
      on its only device, a service that already has client 0 there is given two. */
  lemma OverwritingNeedsNoRoom(s: State, r: Request, k: GpuKey)
    requires Valid(s) && r.pool in s && r.count == 2 && r.gpus == [k]
    requires s[r.pool].daemons.Keys == {k} && |s[r.pool].daemons[k].clients| == MAX_CLIENTS - 1
    requires HoldsId(s[r.pool], k, ClientId(r.service, 0)) && !HoldsId(s[r.pool], k, ClientId(r.service, 1))
    ensures RoomIn(s[r.pool], r.gpus) == 1
    ensures AllocateVia(s, r, [k, k], s[r.pool := Placed(s[r.pool], r.service, [k, k], 2)], true)
  {
    var pool, ks := s[r.pool], [k, k];
    assert PoolValid(pool) && DaemonValid(pool.daemons[k]);
    var free := Free(Loads(pool), MAX_CLIENTS, Devices(r.gpus));
    assert free == map[k := 1];
    SumRemove(free, k);
    assert free - {k} == map[];
    var once := Placed(pool, r.service, ks, 1);
    assert once == AddClient(Placed(pool, r.service, ks, 0), r.service, 0, k);
    ClientsWith(pool.daemons[k], ClientId(r.service, 0), Client(r.service, k, pool.threadPct));
    assert HasRoom(pool, k) && HasRoom(once, k);
    assert PlacementAt(pool, r.service, r.gpus, ks, 0) && PlacementAt(pool, r.service, r.gpus, ks, 1);
  }

  /** The client under an id, on a device of a pool, if there is one. */
  function ClientAt(s: State, p: string, k: GpuKey, id: ClientId): Option<Client> {
    if p in s && k in s[p].daemons && id in s[p].daemons[k].clients then Some(s[p].daemons[k].clients[id]) else None
  }

  ghost predicate OthersUnchanged(s: State, svc: Service, s': State) {
    forall p, k, id: ClientId :: id.service != svc ==> ClientAt(s', p, k, id) == ClientAt(s, p, k, id)
  }

  lemma {:induction false} PlacedOthers(s: State, name: string, svc: Service, ks: seq<GpuKey>, n: nat)
    requires name in s && n <= |ks|
    ensures OthersUnchanged(s, svc, s[name := Placed(s[name], svc, ks, n)])
  {
    if n == 0 {
      assert s[name := s[name]] == s;
    } else {
      PlacedOthers(s, name, svc, ks, n - 1);
      var s1, s2 := s[name := Placed(s[name], svc, ks, n - 1)], s[name := Placed(s[name], svc, ks, n)];
      assert forall p, k, id: ClientId :: id.service != svc ==> ClientAt(s2, p, k, id) == ClientAt(s1, p, k, id);
    }
  }

  lemma ReleaseOthers(s: State, svc: Service)
    requires Valid(s)
    ensures Valid(Released(s, svc)) && OthersUnchanged(s, svc, Released(s, svc))
    ensures forall p, k, id: ClientId :: id.service == svc ==> ClientAt(Released(s, svc), p, k, id) == None
  {
    forall p, k | p in s && k in s[p].daemons
      ensures DaemonValid(s[p].daemons[k]) && DaemonValid(WithoutService(s[p].daemons[k], svc))
    {
      assert PoolValid(s[p]);
      FewerClientsValid(s[p].daemons[k], svc);
    }
    FewerStayDisjoint(s, Released(s, svc));
    forall p, k, id: ClientId
      ensures ClientAt(Released(s, svc), p, k, id) == if id.service == svc then None else ClientAt(s, p, k, id)
    {
      assert p in s && k in s[p].daemons ==> FiledUnder(s[p].daemons[k], id);
    }
  }

  lemma FewerClientsValid(d: Daemon, svc: Service)
    requires DaemonValid(d)
    ensures DaemonValid(WithoutService(d, svc))
  {
    SubsetSize(WithoutService(d, svc).clients.Keys, d.clients.Keys);
    forall id
      ensures FiledUnder(WithoutService(d, svc), id)
    {
      assert FiledUnder(d, id);
    }
  }

  lemma {:induction false} SubsetSize<T>(a: set<T>, b: set<T>)
    requires a <= b
    ensures |a| <= |b|
  {
    if a != {} {
      var x :| x in a;
      SubsetSize(a - {x}, b - {x});
    }
  }

  lemma PlacedStaysValid(s: State, r: Request, ks: seq<GpuKey>)
    requires Valid(s) && Separate(s, r) && r.pool in s && Placements(s[r.pool], r.service, r.gpus, ks)
    ensures Valid(s[r.pool := Placed(s[r.pool], r.service, ks, |ks|)])
  {
    var pool := Placed(s[r.pool], r.service, ks, |ks|);
    assert PoolValid(s[r.pool]);
    PlacedValid(s[r.pool], r.service, r.gpus, ks, |ks|);
    PlacedDevices(s[r.pool], r.service, r.gpus, ks, |ks|);
    forall p | p in s && p != r.pool
      ensures s[p].daemons.Keys !! pool.daemons.Keys
    {
      assert forall k :: k in s[p].daemons && k in s[r.pool].daemons ==> Share(s, p, r.pool, k);
    }
    StaysDisjoint(s, r.pool, s[r.pool := pool]);
  }

  lemma {:induction false} PlacedKeepsPct(pool: Pool, svc: Service, ks: seq<GpuKey>, n: nat)
    requires n <= |ks|
    ensures Placed(pool, svc, ks, n).threadPct == pool.threadPct
  {
    if n > 0 {
      PlacedKeepsPct(pool, svc, ks, n - 1);
    }
  }

  /** Whatever comes of an allocation: the daemons stay valid and disjoint, and no client of another
      service is touched, in any pool. */
  lemma AllocateKeepsOthers(s: State, r: Request, ks: seq<GpuKey>, s': State, ok: bool)
    requires Valid(s) && Separate(s, r) && AllocateVia(s, r, ks, s', ok)
    ensures Valid(s') && OthersUnchanged(s, r.service, s')
    ensures s'.Keys == s.Keys && forall p :: p in s ==> s'[p].threadPct == s[p].threadPct
  {
    if r.pool in s {
      PlacedKeepsPct(s[r.pool], r.service, ks, |ks|);
      PlacedStaysValid(s, r, ks);
      PlacedOthers(s, r.pool, r.service, ks, |ks|);
      var placed := s[r.pool := Placed(s[r.pool], r.service, ks, |ks|)];
      ReleaseOthers(placed, r.service);
      if !ok && ks != [] {
        assert forall p, k, id: ClientId :: id.service != r.service ==>
                 ClientAt(s', p, k, id) == ClientAt(placed, p, k, id);
      }
    }
  }

  /** A failure leaves no client of the service anywhere, except that one which fails at its first client
      changes nothing. */
  lemma FailureRollsBack(s: State, r: Request, ks: seq<GpuKey>, s': State)
    requires Valid(s) && Separate(s, r) && AllocateVia(s, r, ks, s', false)
    ensures s' == s || forall p, k, id: ClientId :: id.service == r.service ==> ClientAt(s', p, k, id) == None
  {
    if r.pool in s {
      if ks == [] {
        assert s[r.pool := s[r.pool]] == s;
      } else {
        PlacedStaysValid(s, r, ks);
        ReleaseOthers(s[r.pool := Placed(s[r.pool], r.service, ks, |ks|)], r.service);
      }
    }
  }

  /** A client that was placed stays as it was placed: no later one has its id. */
  lemma {:induction false} PlacedClient(pool: Pool, svc: Service, ks: seq<GpuKey>, n: nat, i: nat)
    requires i < n <= |ks|
    ensures HoldsId(Placed(pool, svc, ks, n), ks[i], ClientId(svc, i))
    ensures Placed(pool, svc, ks, n).daemons[ks[i]].clients[ClientId(svc, i)] == Client(svc, ks[i], pool.threadPct)
  {
    PlacedKeepsPct(pool, svc, ks, n - 1);
    if i < n - 1 {
      PlacedClient(pool, svc, ks, n - 1, i);
    }
  }

  /** After a success client number `i` is on the `i`-th device given, knows its service and its device, and has the
      thread percentage of the pool. */
  lemma SuccessClients(s: State, r: Request, ks: seq<GpuKey>, s': State, i: nat)
    requires r.pool in s && AllocateVia(s, r, ks, s', true) && i < r.count
    ensures |ks| == r.count
    ensures ClientAt(s', r.pool, ks[i], ClientId(r.service, i))
         == Some(Client(r.service, ks[i], s[r.pool].threadPct))
  {
    PlacedClient(s[r.pool], r.service, ks, |ks|, i);
  }

  /** After a success the service's clients in the pool are the ones asked for, each on its device, and
      those it had before. */
  lemma SuccessPlacesEach(s: State, r: Request, ks: seq<GpuKey>, s': State, k: GpuKey, i: nat)
    requires r.pool in s && AllocateVia(s, r, ks, s', true)
    ensures |ks| == r.count && r.pool in s'
    ensures HoldsId(s'[r.pool], k, ClientId(r.service, i))
       <==> (i < r.count && ks[i] == k) || HoldsId(s[r.pool], k, ClientId(r.service, i))
  {
    PlacedHolds(s[r.pool], r.service, ks, |ks|, k, i);
  }
}

/** Whole runs of the MPS manager. */
module MpsRuns {
  import opened Common
  import opened MpsSpec

  datatype Op =
    | Allocate(request: Request, ks: seq<GpuKey>, ok: bool)
    | Release(service: Service)
    | Cleanup(pool: string)
    | Restart(gpu: GpuKey)
    | Configure(pool: string, mps: bool, threadPct: int)

  ghost predicate NoClients(pool: Pool) {
    forall k :: k in pool.daemons ==> pool.daemons[k].clients == map[]
  }

  ghost function CleanedUp(s: State, name: string): State {
    if name in s && NoClients(s[name]) then s - {name} else s
  }

  function Configured(s: State, name: string, threadPct: int): State {
    s[name := Pool(if threadPct == 0 then 100 else threadPct, map[])]
  }

  /** A daemon is restarted only without clients, and then is as it was. */
  ghost predicate Step(s: State, op: Op, s': State) {
    match op
    case Allocate(r, ks, ok) => AllocateVia(s, r, ks, s', ok)
    case Release(svc) => s' == Released(s, svc)
    case Cleanup(name) => s' == CleanedUp(s, name)
    case Restart(_) => s' == s
    case Configure(name, mps, threadPct) => s' == if mps then Configured(s, name, threadPct) else s
  }

  /** Pools do not share devices, and none is configured again while it has daemons. */
  ghost predicate Orderly(s: State, op: Op) {
    match op
    case Allocate(r, _, _) => Separate(s, r)
    case Configure(name, mps, _) => mps && name in s ==> s[name].daemons == map[]
    case _ => true
  }

  ghost predicate IsRun(states: seq<State>, ops: seq<Op>) {
    && |states| == |ops| + 1 && states[0] == map[]
    && forall i :: 0 <= i < |ops| ==> Step(states[i], ops[i], states[i + 1]) && Orderly(states[i], ops[i])
  }

  lemma StepStaysValid(s: State, op: Op, s': State)
    requires Valid(s) && Step(s, op, s') && Orderly(s, op)
    ensures Valid(s')
  {
    match op {
      case Allocate(r, ks, ok) => AllocateKeepsOthers(s, r, ks, s', ok);
      case Release(svc) => ReleaseOthers(s, svc);
      case Cleanup(_) => FewerStayDisjoint(s, s');
      case Restart(_) =>
      case Configure(_, _, _) => FewerStayDisjoint(s, s');
    }
  }

  lemma {:induction false} RunStaysValid(states: seq<State>, ops: seq<Op>, n: nat)
    requires IsRun(states, ops) && n < |states|
    ensures Valid(states[n])
  {
    if n > 0 {
      RunStaysValid(states, ops, n - 1);
      StepStaysValid(states[n - 1], ops[n - 1], states[n]);
    }
  }

  /** In every run every daemon runs with at most 48 clients, each filed under its own service, and no
      device has daemons in two pools. */
  lemma RunInvariant(states: seq<State>, ops: seq<Op>, n: nat)
    requires IsRun(states, ops) && n < |states|
    ensures Valid(states[n])
    ensures forall p, k :: p in states[n] && k in states[n][p].daemons ==>
              states[n][p].daemons[k].running && |states[n][p].daemons[k].clients| <= 48
    ensures var s := states[n];
            forall p, q, k :: p in s && q in s && k in s[p].daemons && k in s[q].daemons ==> p == q
  {
    RunStaysValid(states, ops, n);
    var s := states[n];
    forall p, k | p in s && k in s[p].daemons
      ensures s[p].daemons[k].running && |s[p].daemons[k].clients| <= 48
    {
      assert PoolValid(s[p]) && DaemonValid(s[p].daemons[k]);
    }
    assert forall p, q, k :: p in s && q in s && k in s[p].daemons && k in s[q].daemons ==> Share(s, p, q, k);
  }
}
