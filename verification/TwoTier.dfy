/** A hierarchy of the two in-memory caches, a prefix cache over a disk cache under write-through: its
    steps are the manager's steps on tiers, so what is proved of those holds of it. */
module TwoTierRuns {
  import opened Common
  import opened LossyMaps
  import Tier = TierSpec
  import P = PrefixStoreSpec
  import PRuns = PrefixStoreRuns
  import L = LocalCacheSpec
  import LRuns = LocalCacheRuns

  datatype Config = Config(prefix: P.Config, disk: L.Config)

  datatype Caches = Caches(prefix: P.Store<string>, disk: L.Cache<string>)

  /** `Own` steps are those that a cache takes by itself: sweeps, evictions, readers coming and going. */
  datatype Op =
    | Set(key: string, value: seq<byte>, ttl: int, now: int)
    | Get(key: string, now: int, order: seq<string>)
    | Delete(key: string)
    | Clear
    | PrefixOwn(step: PRuns.Op<string>)
    | DiskOwn(action: LRuns.Op<string>)

  ghost predicate WellFormed(op: Op) {
    match op
    case PrefixOwn(step) => PRuns.EffectOf(step) == Kept
    case DiskOwn(action) => LRuns.EffectOf(action) == Kept
    case _ => true
  }

  /** The first tier that has the key, and what it has. */
  ghost function Ask(cfg: Config, s: Caches, key: string, now: int): Option<(nat, seq<byte>)> {
    match P.Lookup(s.prefix, key, now)
    case Some(value) => Some((0, value))
    case None =>
      match L.Lookup(cfg.disk, s.disk, key, now)
      case Hit(value) => Some((1, value))
      case _ => None
  }

  ghost function Apply(cfg: Config, s: Caches, op: Op): Caches {
    match op
    case Set(key, value, ttl, now) =>
      Caches(P.Put(cfg.prefix, s.prefix, key, value, ttl, now), L.Write(cfg.disk, s.disk, key, value, ttl, now))
    case Get(key, now, order) =>
      var prefix := P.Read(cfg.prefix, s.prefix, key, now, order);
      (match Ask(cfg, s, key, now)
       case Some((0, _)) => Caches(prefix, s.disk)
       case Some((_, value)) =>
         Caches(P.Put(cfg.prefix, prefix, key, value, 0, now), L.Read(cfg.disk, s.disk, key, now))
       case None => Caches(prefix, L.Read(cfg.disk, s.disk, key, now)))
    case Delete(key) => Caches(P.RemoveIfPresent(s.prefix, key), L.Delete(s.disk, key))
    case Clear => Caches(P.EmptyStore(), L.EmptyCache())
    case PrefixOwn(step) => s.(prefix := PRuns.Apply(cfg.prefix, s.prefix, step))
    case DiskOwn(action) => s.(disk := LRuns.Apply(cfg.disk, s.disk, action))
  }

  /** The same operation as the manager sees it. */
  ghost function AsTierOp(cfg: Config, s: Caches, op: Op): Tier.Op {
    match op
    case Set(key, value, _, _) => Tier.Op.Set(key, value, {0, 1})
    case Get(key, now, _) =>
      (match Ask(cfg, s, key, now)
       case Some((0, _)) => Tier.Op.Get(key, Some(0), {})
       case Some((_, _)) => Tier.Op.Get(key, Some(1), {0})
       case None => Tier.Op.Get(key, None, {}))
    case Delete(key) => Tier.Op.Delete(key, {0, 1})
    case Clear => Tier.Op.Clear({0, 1})
    case _ => Tier.Op.Forget
  }

  ghost function Run(cfg: Config, ops: seq<Op>): Caches {
    if ops == [] then Caches(P.EmptyStore(), L.EmptyCache()) else Apply(cfg, Run(cfg, ops[..|ops| - 1]), ops[|ops| - 1])
  }

  function EffectOf(op: Op): Effect<string> {
    match op
    case Set(key, value, _, _) => Stored(key, value)
    case Delete(key) => Removed(key)
    case Clear => Cleared
    case _ => Kept
  }

  function Latest(ops: seq<Op>): map<string, seq<byte>> {
    if ops == [] then map[] else Update(Latest(ops[..|ops| - 1]), EffectOf(ops[|ops| - 1]))
  }

  // ---------------------------------------------------------------- the invariant

  ghost predicate Inv(cfg: Config, s: Caches, latest: map<string, seq<byte>>, m: nat) {
    && PRuns.Contained(cfg.prefix, s.prefix, latest, m) && LRuns.Agrees(cfg.disk, s.disk, latest)
    && forall k :: k in latest ==> |latest[k]| <= m
  }

  ghost function Held(cfg: Config, s: Caches): Tier.Tiers
    requires exists latest, m :: Inv(cfg, s, latest, m)
  {
    [PRuns.Contents(s.prefix), LRuns.Contents(cfg.disk, s.disk)]
  }

  lemma AskIsLatest(cfg: Config, s: Caches, key: string, now: int, latest: map<string, seq<byte>>, m: nat)
    requires Inv(cfg, s, latest, m)
    ensures var r := Ask(cfg, s, key, now);
            r.Some? ==> key in latest && r.value.1 == latest[key] && r.value.0 < 2 && key in Held(cfg, s)[r.value.0]
                        && Held(cfg, s)[r.value.0][key] == r.value.1
  {
  }

  lemma StepKeepsInv(cfg: Config, s: Caches, op: Op, latest: map<string, seq<byte>>, m: nat)
    requires Inv(cfg, s, latest, m) && L.Inverse(cfg.disk) && WellFormed(op) && (op.Set? ==> |op.value| <= m)
    ensures Inv(cfg, Apply(cfg, s, op), Update(latest, EffectOf(op)), m)
  {
    match op {
      case Set(key, value, ttl, now) =>
        PRuns.StepContained(cfg.prefix, s.prefix, PRuns.Op.Set(key, value, ttl, now), latest, m);
        LRuns.StepAgrees(cfg.disk, s.disk, LRuns.Op.Set(key, value, ttl, now), latest);
      case Get(key, now, order) =>
        PRuns.StepContained(cfg.prefix, s.prefix, PRuns.Op.Get(key, now, order), latest, m);
        LRuns.StepAgrees(cfg.disk, s.disk, LRuns.Op.Get(key, now), latest);
        AskIsLatest(cfg, s, key, now, latest, m);
        var r := Ask(cfg, s, key, now);
        if r.Some? {
          var prefix := P.Read(cfg.prefix, s.prefix, key, now, order);
          PRuns.StepContained(cfg.prefix, prefix, PRuns.Op.Set(key, r.value.1, 0, now), latest, m);
          assert latest[key := r.value.1] == latest;
        }
      case Delete(key) =>
        PRuns.StepContained(cfg.prefix, s.prefix, PRuns.Op.Delete(key), latest, m);
        LRuns.StepAgrees(cfg.disk, s.disk, LRuns.Op.Remove(key), latest);
      case Clear =>
      case PrefixOwn(step) => PRuns.StepContained(cfg.prefix, s.prefix, step, latest, m);
      case DiskOwn(action) => LRuns.StepAgrees(cfg.disk, s.disk, action, latest);
    }
  }

  // ---------------------------------------------------------------- refinement

  lemma BothReached(a: Tier.Contents, b: Tier.Contents, e: Effect<string>, reached: set<nat>, a': Tier.Contents,
                    b': Tier.Contents)
    requires Lossy(a, if 0 in reached then e else Kept, a') && Lossy(b, if 1 in reached then e else Kept, b')
    ensures Tier.Reaches([a, b], e, reached, [a', b'])
  {
  }

  /** Whatever each cache evicts, moves, expires, compresses or promotes, a step of the two is a step of
      the manager's tiers, with no failure to hide. */
  lemma StepIsTierStep(cfg: Config, s: Caches, op: Op, latest: map<string, seq<byte>>, m: nat)
    requires Inv(cfg, s, latest, m) && L.Inverse(cfg.disk) && WellFormed(op) && (op.Set? ==> |op.value| <= m)
    ensures Inv(cfg, Apply(cfg, s, op), Update(latest, EffectOf(op)), m)
    ensures Tier.Step(Tier.WRITE_THROUGH, Held(cfg, s), AsTierOp(cfg, s, op), Held(cfg, Apply(cfg, s, op)))
    ensures Tier.Faithful(Tier.WRITE_THROUGH, 2, AsTierOp(cfg, s, op))
    ensures Tier.EffectOf(Tier.WRITE_THROUGH, 2, AsTierOp(cfg, s, op)) == EffectOf(op)
  {
    StepKeepsInv(cfg, s, op, latest, m);
    assert Tier.Indices(2) == {0, 1};
    if op.Get? {
      GetIsTierStep(cfg, s, op.key, op.now, op.order, latest, m);
    } else {
      StepIsLossy(cfg, s, op, latest, m);
      var before, after := Held(cfg, s), Held(cfg, Apply(cfg, s, op));
      var reached := if op.PrefixOwn? || op.DiskOwn? then {} else {0, 1};
      BothReached(before[0], before[1], EffectOf(op), reached, after[0], after[1]);
    }
  }

  /** Each of the two forgets, at most, once the operation took place on it. */
  lemma StepIsLossy(cfg: Config, s: Caches, op: Op, latest: map<string, seq<byte>>, m: nat)
    requires Inv(cfg, s, latest, m) && L.Inverse(cfg.disk) && WellFormed(op) && (op.Set? ==> |op.value| <= m)
    requires Inv(cfg, Apply(cfg, s, op), Update(latest, EffectOf(op)), m) && !op.Get?
    ensures Lossy(Held(cfg, s)[0], EffectOf(op), Held(cfg, Apply(cfg, s, op))[0])
    ensures Lossy(Held(cfg, s)[1], EffectOf(op), Held(cfg, Apply(cfg, s, op))[1])
  {
    match op {
      case Set(key, value, ttl, now) =>
        PRuns.StepIsLossy(cfg.prefix, s.prefix, PRuns.Op.Set(key, value, ttl, now), latest, m);
        LRuns.StepIsLossy(cfg.disk, s.disk, LRuns.Op.Set(key, value, ttl, now), latest);
      case Delete(key) =>
        PRuns.StepIsLossy(cfg.prefix, s.prefix, PRuns.Op.Delete(key), latest, m);
        LRuns.StepIsLossy(cfg.disk, s.disk, LRuns.Op.Remove(key), latest);
      case Clear =>
      case PrefixOwn(step) => PRuns.StepIsLossy(cfg.prefix, s.prefix, step, latest, m);
      case DiskOwn(action) => LRuns.StepIsLossy(cfg.disk, s.disk, action, latest);
      case Get(_, _, _) =>
    }
  }

  /** A read that is followed by a promotion stores the value found. */
  lemma PromotionIsLossy(cfg: Config, prefix: P.Store<string>, key: string, value: seq<byte>, now: int,
                         order: seq<string>, latest: map<string, seq<byte>>, m: nat)
    requires PRuns.Contained(cfg.prefix, prefix, latest, m) && key in latest && value == latest[key] && |value| <= m
    ensures var after := P.Put(cfg.prefix, P.Read(cfg.prefix, prefix, key, now, order), key, value, 0, now);
            Lossy(PRuns.Contents(prefix), Stored(key, value), PRuns.Contents(after))
  {
    var read := P.Read(cfg.prefix, prefix, key, now, order);
    PRuns.StepIsLossy(cfg.prefix, prefix, PRuns.Op.Get(key, now, order), latest, m);
    PRuns.StepContained(cfg.prefix, prefix, PRuns.Op.Get(key, now, order), latest, m);
    PRuns.StepIsLossy(cfg.prefix, read, PRuns.Op.Set(key, value, 0, now), latest, m);
  }

  /** A read forgets, at most, and stores the value in the prefix cache if it was found below. */
  lemma GetIsLossy(cfg: Config, s: Caches, key: string, now: int, order: seq<string>, latest: map<string, seq<byte>>,
                   m: nat)
    requires Inv(cfg, s, latest, m) && L.Inverse(cfg.disk)
    requires Inv(cfg, Apply(cfg, s, Get(key, now, order)), latest, m)
    ensures var r, after := Ask(cfg, s, key, now), Held(cfg, Apply(cfg, s, Get(key, now, order)));
            && Lossy(Held(cfg, s)[0], if r.Some? && r.value.0 == 1 then Stored(key, r.value.1) else Kept, after[0])
            && Lossy(Held(cfg, s)[1], Kept, after[1])
  {
    AskIsLatest(cfg, s, key, now, latest, m);
    LRuns.StepIsLossy(cfg.disk, s.disk, LRuns.Op.Get(key, now), latest);
    var r := Ask(cfg, s, key, now);
    if r.Some? && r.value.0 == 1 {
      PromotionIsLossy(cfg, s.prefix, key, r.value.1, now, order, latest, m);
    } else {
      PRuns.StepIsLossy(cfg.prefix, s.prefix, PRuns.Op.Get(key, now, order), latest, m);
    }
  }

  lemma GetIsTierStep(cfg: Config, s: Caches, key: string, now: int, order: seq<string>, latest: map<string, seq<byte>>,
                      m: nat)
    requires Inv(cfg, s, latest, m) && L.Inverse(cfg.disk)
    requires Inv(cfg, Apply(cfg, s, Get(key, now, order)), latest, m)
    ensures Tier.Step(Tier.WRITE_THROUGH, Held(cfg, s), AsTierOp(cfg, s, Get(key, now, order)),
                      Held(cfg, Apply(cfg, s, Get(key, now, order))))
  {
    AskIsLatest(cfg, s, key, now, latest, m);
    GetIsLossy(cfg, s, key, now, order, latest, m);
    var r := Ask(cfg, s, key, now);
    var before, after := Held(cfg, s), Held(cfg, Apply(cfg, s, Get(key, now, order)));
    var e := if r.Some? then Stored(key, r.value.1) else Kept;
    BothReached(before[0], before[1], e, if r.Some? && r.value.0 == 1 then {0} else {}, after[0], after[1]);
    assert 0 in Tier.Indices(1);
  }

  /** Values are never larger than `m`; the caches take only steps of their own by themselves. */
  ghost predicate Orderly(ops: seq<Op>, m: nat) {
    forall i :: 0 <= i < |ops| ==> WellFormed(ops[i]) && (ops[i].Set? ==> |ops[i].value| <= m)
  }

  lemma {:induction false} RunInv(cfg: Config, ops: seq<Op>, m: nat)
    requires L.Inverse(cfg.disk) && Orderly(ops, m)
    ensures Inv(cfg, Run(cfg, ops), Latest(ops), m)
  {
    if ops != [] {
      RunInv(cfg, ops[..|ops| - 1], m);
      StepKeepsInv(cfg, Run(cfg, ops[..|ops| - 1]), ops[|ops| - 1], Latest(ops[..|ops| - 1]), m);
    }
  }

  /** After any run, reading the hierarchy finds nothing or the latest value. */
  lemma AskAfterRun(cfg: Config, ops: seq<Op>, m: nat, key: string, now: int)
    requires L.Inverse(cfg.disk) && Orderly(ops, m)
    ensures var r := Ask(cfg, Run(cfg, ops), key, now);
            r == None || (key in Latest(ops) && r.value.1 == Latest(ops)[key])
  {
    RunInv(cfg, ops, m);
    AskIsLatest(cfg, Run(cfg, ops), key, now, Latest(ops), m);
  }
}
