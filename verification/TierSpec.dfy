/** The hierarchy of tiers on values: what each tier holds, and what one operation does to all of them. */
module TierSpec {
  import opened Common
  import opened LossyMaps

  const WRITE_THROUGH := "write-through"
  const WRITE_BACK := "write-back"
  const WRITE_AROUND := "write-around"

  type Contents = map<string, seq<byte>>

  /** The tiers of one cache, the first one asked first. */
  type Tiers = seq<Contents>

  function Indices(n: nat): (s: set<nat>)
    ensures forall i: nat :: i in s <==> i < n
  {
    if n == 0 then {} else Indices(n - 1) + {n - 1}
  }

  /** The tiers that a `Set` is sent to; any policy but the named ones means all of them. */
  function Targets(policy: string, n: nat): set<nat> {
    if n == 0 then {}
    else if policy == WRITE_BACK then {0}
    else if policy == WRITE_AROUND then {n - 1}
    else Indices(n)
  }

  /** Under write-back that is the first tier and no other, under write-around the last, and otherwise every one. */
  lemma TargetsAre(policy: string, n: nat, i: nat)
    ensures i in Targets(policy, n)
       <==> i < n && (policy == "write-back" ==> i == 0) && (policy == "write-around" ==> i == n - 1)
    ensures Targets(policy, n) == {} <==> n == 0
  {
    assert n > 0 ==> 0 in Indices(n);
  }

  /** These two policies send a `Set` to one tier, and report its failure. */
  predicate SingleTarget(policy: string) {
    policy == WRITE_BACK || policy == WRITE_AROUND
  }

  /** The effect took place on the tiers in `reached`; every tier may have forgotten anything besides. */
  ghost predicate Reaches(ts: Tiers, e: Effect<string>, reached: set<nat>, ts': Tiers) {
    |ts'| == |ts| && forall i :: 0 <= i < |ts| ==> Lossy(ts[i], if i in reached then e else Kept, ts'[i])
  }

  /** The same when no tier forgets anything. */
  ghost function Reached(ts: Tiers, e: Effect<string>, reached: set<nat>): (ts': Tiers)
    ensures |ts'| == |ts|
    ensures forall i :: 0 <= i < |ts| ==> ts'[i] == Update(ts[i], if i in reached then e else Kept)
  {
    seq(|ts|, i requires 0 <= i < |ts| => Update(ts[i], if i in reached then e else Kept))
  }

  // ---------------------------------------------------------------- one operation

  /** `reached` are the tiers whose own operation succeeded. In a `Get`, `hit` is the first tier that
      found the key, and `promoted` are the tiers that its value was then copied to. `Warm` is one entry of
      a warm-up. `Forget` stands for evictions and expiries between operations. */
  datatype Op =
    | Set(key: string, value: seq<byte>, reached: set<nat>)
    | Delete(key: string, reached: set<nat>)
    | Clear(reached: set<nat>)
    | Get(key: string, hit: Option<nat>, promoted: set<nat>)
    | Warm(key: string, value: seq<byte>, reached: set<nat>)
    | Forget

  ghost predicate Step(policy: string, ts: Tiers, op: Op, ts': Tiers) {
    match op
    case Set(key, value, reached) => reached <= Targets(policy, |ts|) && Reaches(ts, Stored(key, value), reached, ts')
    case Delete(key, reached) => Reaches(ts, Removed(key), reached, ts')
    case Clear(reached) => Reaches(ts, Cleared, reached, ts')
    case Get(key, None, promoted) => Reaches(ts, Kept, {}, ts')
    case Get(key, Some(hit), promoted) =>
      && hit < |ts| && key in ts[hit]
      && promoted <= (if policy == WRITE_THROUGH then Indices(hit) else {})
      && Reaches(ts, Stored(key, ts[hit][key]), promoted, ts')
    case Warm(key, value, reached) => Reaches(ts, Stored(key, value), reached, ts')
    case Forget => Reaches(ts, Kept, {}, ts')
  }

  /** What the caller may believe happened. A `Set` only reports a failure under a policy with a single
      target; all others report success whatever their tiers said. */
  function EffectOf(policy: string, n: nat, op: Op): Effect<string> {
    match op
    case Set(key, value, reached) =>
      if SingleTarget(policy) && reached != Targets(policy, n) then Kept else Stored(key, value)
    case Delete(key, _) => Removed(key)
    case Clear(_) => Cleared
    case Warm(key, value, _) => Stored(key, value)
    case _ => Kept
  }

  /** No tier failed without the caller being told, and nothing but a `Set` writes where a single target
      is meant to be written. */
  predicate Faithful(policy: string, n: nat, op: Op) {
    match op
    case Set(_, _, reached) => SingleTarget(policy) || reached == Indices(n)
    case Delete(_, reached) => reached == Indices(n)
    case Clear(reached) => reached == Indices(n)
    case Warm(_, _, reached) => !SingleTarget(policy) && reached == Indices(n)
    case _ => true
  }

  /** Operations that only forget may come first. */
  lemma ReachesAfterForgetting(ts: Tiers, ts1: Tiers, e: Effect<string>, reached: set<nat>, ts2: Tiers)
    requires Reaches(ts, Kept, {}, ts1) && Reaches(ts1, e, reached, ts2)
    ensures Reaches(ts, e, reached, ts2)
  {
    forall i | 0 <= i < |ts|
      ensures Lossy(ts[i], if i in reached then e else Kept, ts2[i])
    {
      assert Lossy(ts[i], Kept, ts1[i]);
    }
  }

  /** Asking the tiers and then promoting what was found is one step. */
  lemma GetSteps(policy: string, ts: Tiers, ts1: Tiers, ts2: Tiers, key: string, hit: nat, promoted: set<nat>)
    requires hit < |ts| && key in ts[hit] && promoted <= if policy == WRITE_THROUGH then Indices(hit) else {}
    requires Reaches(ts, Kept, {}, ts1) && Reaches(ts1, Stored(key, ts[hit][key]), promoted, ts2)
    ensures Step(policy, ts, Op.Get(key, Some(hit), promoted), ts2)
  {
    ReachesAfterForgetting(ts, ts1, Stored(key, ts[hit][key]), promoted, ts2);
  }

  // ---------------------------------------------------------------- coherence

  /** Whatever a tier holds is the latest value. */
  ghost predicate Coherent(ts: Tiers, latest: Contents) {
    forall i :: 0 <= i < |ts| ==> Submap(ts[i], latest)
  }

  /** What the tier holds would not be contradicted by the effect, had it missed it. */
  ghost predicate Spared(m: Contents, e: Effect<string>) {
    match e
    case Stored(key, value) => key in m ==> m[key] == value
    case Removed(key) => key !in m
    case Cleared => m == map[]
    case Kept => true
  }

  lemma SparedIff(m: Contents, latest: Contents, e: Effect<string>)
    requires Submap(m, latest)
    ensures Submap(m, Update(latest, e)) <==> Spared(m, e)
  {
    if !Spared(m, e) && e.Cleared? {
      assert m != map[];
      var k :| k in m;
      assert k !in Update(latest, e);
    }
  }

  /** An effect keeps the tiers coherent exactly when every tier that it did not reach holds nothing that
      it contradicts. So an operation that reaches all tiers always does, and one that a tier failed, or
      that was not sent to it, leaves a stale value exactly when that tier had one. */
  lemma ReachedCoherentIff(ts: Tiers, latest: Contents, e: Effect<string>, reached: set<nat>)
    requires Coherent(ts, latest)
    ensures Coherent(Reached(ts, e, reached), Update(latest, e))
       <==> forall i :: 0 <= i < |ts| && i !in reached ==> Spared(ts[i], e)
  {
    var ts' := Reached(ts, e, reached);
    forall i | 0 <= i < |ts|
      ensures Submap(ts'[i], Update(latest, e)) <==> i in reached || Spared(ts[i], e)
    {
      SparedIff(ts[i], latest, e);
    }
  }

  /** Forgetting never hurts. */
  lemma ReachesCoherent(ts: Tiers, latest: Contents, e: Effect<string>, reached: set<nat>, ts': Tiers)
    requires Coherent(ts, latest) && Reaches(ts, e, reached, ts')
    requires forall i :: 0 <= i < |ts| && i !in reached ==> Spared(ts[i], e)
    ensures Coherent(ts', Update(latest, e))
  {
    ReachedCoherentIff(ts, latest, e, reached);
    forall i | 0 <= i < |ts|
      ensures Submap(ts'[i], Update(latest, e))
    {
      assert Submap(ts'[i], Reached(ts, e, reached)[i]);
    }
  }

  /** A promotion that comes late copies a value found earlier. With the value stored in the tiers above
      `hit`, they are coherent exactly when there are none or the value is still the latest. */
  lemma LatePromotionCoherentIff(ts: Tiers, latest: Contents, key: string, value: seq<byte>, hit: nat)
    requires Coherent(ts, latest) && hit < |ts|
    ensures Coherent(Reached(ts, Stored(key, value), Indices(hit)), latest)
       <==> hit == 0 || (key in latest && latest[key] == value)
  {
    var ts' := Reached(ts, Stored(key, value), Indices(hit));
    if hit > 0 {
      assert ts'[0] == ts[0][key := value];
    }
  }

  /** The tiers before the first one called `name`: the ones that a promotion writes. */
  function Before(names: seq<string>, name: string): (n: nat)
    ensures n <= |names|
    ensures forall i :: 0 <= i < n ==> names[i] != name
    ensures n < |names| ==> names[n] == name
  {
    if names == [] || names[0] == name then 0 else 1 + Before(names[1..], name)
  }

  /** A promotion writes exactly the tiers above the one that was hit if and only if none of them has
      the same name. */
  lemma PromotionStopsAtHitIff(names: seq<string>, hit: nat)
    requires hit < |names|
    ensures Before(names, names[hit]) == hit <==> forall i :: 0 <= i < hit ==> names[i] != names[hit]
  {
    var n := Before(names, names[hit]);
    assert n <= hit;
  }

  // ---------------------------------------------------------------- whole runs

  /** Under the policies with a single target no other tier ever holds anything. */
  ghost predicate Unwritten(policy: string, ts: Tiers) {
    SingleTarget(policy) ==> forall i :: 0 <= i < |ts| && i !in Targets(policy, |ts|) ==> ts[i] == map[]
  }

  function Latest(policy: string, n: nat, ops: seq<Op>): Contents {
    if ops == [] then map[] else Update(Latest(policy, n, ops[..|ops| - 1]), EffectOf(policy, n, ops[|ops| - 1]))
  }

  ghost predicate IsRun(policy: string, n: nat, states: seq<Tiers>, ops: seq<Op>) {
    && |states| == |ops| + 1 && states[0] == seq(n, i => map[])
    && forall i :: 0 <= i < |ops| ==> Step(policy, states[i], ops[i], states[i + 1]) && Faithful(policy, n, ops[i])
  }

  lemma StepCoherent(policy: string, ts: Tiers, op: Op, ts': Tiers, latest: Contents)
    requires Step(policy, ts, op, ts') && Faithful(policy, |ts|, op)
    requires Coherent(ts, latest) && Unwritten(policy, ts)
    ensures |ts'| == |ts| && Unwritten(policy, ts')
    ensures Coherent(ts', Update(latest, EffectOf(policy, |ts|, op)))
  {
    match op {
      case Set(key, value, reached) =>
        if SingleTarget(policy) && reached != Targets(policy, |ts|) {
          assert reached == {};
          ReachesCoherent(ts, latest, Kept, {}, ts');
        } else {
          ReachesCoherent(ts, latest, Stored(key, value), reached, ts');
        }
      case Delete(key, reached) => ReachesCoherent(ts, latest, Removed(key), reached, ts');
      case Clear(reached) => ReachesCoherent(ts, latest, Cleared, reached, ts');
      case Get(_, None, _) => ReachesCoherent(ts, latest, Kept, {}, ts');
      case Get(key, Some(hit), promoted) =>
        assert latest[key := ts[hit][key]] == latest;
        ReachesCoherent(ts, latest, Stored(key, ts[hit][key]), promoted, ts');
      case Warm(key, value, reached) => ReachesCoherent(ts, latest, Stored(key, value), reached, ts');
      case Forget => ReachesCoherent(ts, latest, Kept, {}, ts');
    }
  }

  /** In every run of faithful operations, whatever the policy and whatever the tiers forget,
      every tier holds only latest values. */
  lemma {:induction false} RunCoherent(policy: string, n: nat, states: seq<Tiers>, ops: seq<Op>, m: nat)
    requires IsRun(policy, n, states, ops) && m <= |ops|
    ensures |states[m]| == n && Unwritten(policy, states[m])
    ensures Coherent(states[m], Latest(policy, n, ops[..m]))
  {
    if m > 0 {
      RunCoherent(policy, n, states, ops, m - 1);
      StepCoherent(policy, states[m - 1], ops[m - 1], states[m], Latest(policy, n, ops[..m - 1]));
      assert ops[..m][..m - 1] == ops[..m - 1];
    }
  }

  /** The hierarchy reads like one map that may forget: a `Get` that finds anything finds the latest value. */
  lemma GetIsLatest(policy: string, n: nat, states: seq<Tiers>, ops: seq<Op>, m: nat)
    requires IsRun(policy, n, states, ops) && m < |ops| && ops[m].Get? && ops[m].hit.Some?
    ensures var latest, key, hit := Latest(policy, n, ops[..m]), ops[m].key, ops[m].hit.value;
            && hit < |states[m]| && key in states[m][hit]
            && key in latest && states[m][hit][key] == latest[key]
  {
    RunCoherent(policy, n, states, ops, m);
    assert Step(policy, states[m], ops[m], states[m + 1]);
  }

  /** The latest value is that of the last write of the key which its caller was not told had failed, and nothing
      has been deleted or cleared since. */
  lemma {:induction false} LatestWasWritten(policy: string, n: nat, ops: seq<Op>, key: string) returns (i: nat)
    requires key in Latest(policy, n, ops)
    ensures i < |ops| && (ops[i].Set? || ops[i].Warm?) && ops[i].key == key
    ensures ops[i].value == Latest(policy, n, ops)[key]
    ensures forall j :: i < j < |ops| ==> !ops[j].Clear? && !((ops[j].Delete? || ops[j].Warm?) && ops[j].key == key)
    ensures forall j :: i < j < |ops| && ops[j].Set? && ops[j].key == key ==>
              (policy == "write-back" || policy == "write-around") && ops[j].reached != Targets(policy, n)
  {
    var m := |ops| - 1;
    if EffectOf(policy, n, ops[m]).Stored? && ops[m].key == key {
      i := m;
    } else {
      i := LatestWasWritten(policy, n, ops[..m], key);
    }
  }

  /** Warming up writes to every tier whatever the policy. Under write-back a later `Set` then leaves the
      warmed value below, and it comes back once the first tier has forgotten the newer one. */
  lemma WarmedTierGoesStale(key: string, first: seq<byte>, second: seq<byte>)
    requires first != second
    ensures var warm := [map[key := first], map[key := first]];
            var written, forgotten := [map[key := second], map[key := first]], [map[], map[key := first]];
            && Step(WRITE_BACK, [map[], map[]], Warm(key, first, {0, 1}), warm) && Coherent(warm, map[key := first])
            && Step(WRITE_BACK, warm, Set(key, second, {0}), written) && Faithful(WRITE_BACK, 2, Set(key, second, {0}))
            && Step(WRITE_BACK, written, Forget, forgotten)
            && Step(WRITE_BACK, forgotten, Get(key, Some(1), {}), forgotten)
            && !Coherent(forgotten, map[key := second])
  {
    var forgotten := [map[], map[key := first]];
    assert key in forgotten[1] && !Submap(forgotten[1], map[key := second]);
  }
}
