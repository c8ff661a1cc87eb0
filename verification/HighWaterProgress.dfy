/** Behaviours without end, and what holds some time in them. */
module Behaviours {
  ghost predicate Eventually(q: nat -> bool, n: nat) {
    exists m: nat :: n <= m && q(m)
  }

  ghost predicate Often(q: nat -> bool) {
    forall n: nat :: Eventually(q, n)
  }

  /** What goes on until `a` happens, while something ends it or `a` happens some time, leads up to `a`. */
  lemma {:induction false} LeadsUpTo(p: nat -> bool, a: nat -> bool, m: nat, end: nat) returns (k: nat)
    requires p(m) && m <= end && (!p(end) || a(end))
    requires forall i: nat :: m <= i && p(i) && !a(i) ==> p(i + 1)
    ensures m <= k && p(k) && a(k)
    decreases end - m
  {
    if a(m) {
      k := m;
    } else {
      assert p(m + 1);
      k := LeadsUpTo(p, a, m + 1, end);
    }
  }

  /** The last moment at which `p` holds, if it does not hold for ever. */
  lemma {:induction false} LastMoment(p: nat -> bool, m: nat, end: nat) returns (k: nat)
    requires p(m) && m <= end && !p(end)
    ensures m <= k && p(k) && !p(k + 1)
    decreases end - m
  {
    if p(m + 1) {
      k := LastMoment(p, m + 1, end);
    } else {
      k := m;
    }
  }
}

/** Under fair scheduling a counter above the mark comes down. */
module HighWaterProgress {
  import opened LocalCacheSpec
  import opened HighWaterProtocol
  import opened Behaviours

  /** Threads that take a step at every moment; `Idle` where none does. */
  datatype Behaviour<!K> = Behaviour(states: nat -> State<K>, steps: nat -> Step<K>)

  ghost predicate StepAt<K>(cfg: Config, b: Behaviour<K>, i: nat) {
    Enabled(cfg, b.states(i), b.steps(i)) && b.states(i + 1) == Next(cfg, b.states(i), b.steps(i))
  }

  ghost predicate IsBehaviour<K>(cfg: Config, b: Behaviour<K>) {
    b.states(0) == Initial() && forall i {:trigger StepAt(cfg, b, i)} :: StepAt(cfg, b, i)
  }

  /** What a thread is up to: these are the steps that a scheduler must not put off for ever. */
  datatype Action = EndsStore(t: nat) | Checks(t: nat) | Signals(t: nat) | Receives | BeginsEviction | Evicts

  predicate Does<K>(a: Action, step: Step<K>) {
    match a
    case EndsStore(t) => step == EndStore(t)
    case Checks(t) => step == Check(t)
    case Signals(t) => step == Signal(t)
    case Receives => step == Receive
    case BeginsEviction => step == BeginEvict
    case Evicts => step.EvictEntry? || step == EndEvict
  }

  ghost predicate Can<K(!new)>(cfg: Config, s: State<K>, a: Action) {
    exists step :: Does(a, step) && Enabled(cfg, s, step)
  }

  /** A thread that can go on does so some time, or some time can not. */
  ghost predicate WeaklyFair<K(!new)>(cfg: Config, b: Behaviour<K>, a: Action) {
    Often((i: nat) => !Can(cfg, b.states(i), a) || Does(a, b.steps(i)))
  }

  /** A thread that can go on time and again does so time and again. */
  ghost predicate StronglyFair<K(!new)>(cfg: Config, b: Behaviour<K>, a: Action) {
    Often((i: nat) => Can(cfg, b.states(i), a)) ==> Often((i: nat) => Does(a, b.steps(i)))
  }

  /** No thread is put off for ever, and the lock, which others take in between, does not starve the
      evictor. */
  ghost predicate Fair<K(!new)>(cfg: Config, b: Behaviour<K>) {
    (forall a {:trigger WeaklyFair(cfg, b, a)} :: WeaklyFair(cfg, b, a)) && StronglyFair(cfg, b, BeginsEviction)
  }

  ghost function StatesUpTo<K>(b: Behaviour<K>, n: nat): (states: seq<State<K>>)
    ensures |states| == n + 1 && forall i :: 0 <= i <= n ==> states[i] == b.states(i)
  {
    seq(n + 1, i requires 0 <= i <= n => b.states(i))
  }

  ghost function StepsUpTo<K>(b: Behaviour<K>, n: nat): (steps: seq<Step<K>>)
    ensures |steps| == n && forall i :: 0 <= i < n ==> steps[i] == b.steps(i)
  {
    seq(n, i requires 0 <= i < n => b.steps(i))
  }

  /** Up to any moment a behaviour is a run. */
  lemma PrefixIsRun<K>(cfg: Config, b: Behaviour<K>, n: nat)
    requires IsBehaviour(cfg, b)
    ensures IsRun(cfg, StatesUpTo(b, n), StepsUpTo(b, n))
  {
    var states, steps := StatesUpTo(b, n), StepsUpTo(b, n);
    forall i | 0 <= i < n
      ensures Enabled(cfg, states[i], steps[i]) && states[i + 1] == Next(cfg, states[i], steps[i])
    {
      assert StepAt(cfg, b, i);
    }
  }

  lemma LockedAt<K>(cfg: Config, b: Behaviour<K>, n: nat)
    requires IsBehaviour(cfg, b)
    ensures Locked(b.states(n))
  {
    PrefixIsRun(cfg, b, n);
    CounterDrifts(cfg, StatesUpTo(b, n), StepsUpTo(b, n), n);
  }

  /** What the counter is short of by moment `n`. */
  ghost function DriftAt<K>(b: Behaviour<K>, n: nat): int {
    Drift(StatesUpTo(b, n), StepsUpTo(b, n), n)
  }

  /** While `p` holds the thread can do `a`, and only that ends it: so it does it. */
  lemma DoesSome<K(!new)>(cfg: Config, b: Behaviour<K>, a: Action, p: nat -> bool, m: nat) returns (k: nat)
    requires Fair(cfg, b) && p(m)
    requires forall i: nat :: m <= i && p(i) ==> Can(cfg, b.states(i), a)
    requires forall i: nat :: m <= i && p(i) && !Does(a, b.steps(i)) ==> p(i + 1)
    ensures m <= k && p(k) && Does(a, b.steps(k))
  {
    assert WeaklyFair(cfg, b, a);
    var there := (i: nat) => !Can(cfg, b.states(i), a) || Does(a, b.steps(i));
    assert Eventually(there, m);
    var end: nat :| m <= end && there(end);
    k := LeadsUpTo(p, (i: nat) => Does(a, b.steps(i)), m, end);
  }

  lemma {:induction false} FindOldest<K>(index: map<K, Entry>) returns (key: K)
    requires index != map[]
    ensures key in index && forall k :: k in index ==> index[key].accessedAt <= index[k].accessedAt
    decreases |index|
  {
    var some :| some in index;
    var rest := index - {some};
    assert forall k :: k in index ==> k == some || k in rest;
    key := some;
    if rest != map[] {
      var other := FindOldest(rest);
      if index[other].accessedAt < index[some].accessedAt {
        key := other;
      }
    }
  }

  lemma CanEvict<K(!new)>(cfg: Config, s: State<K>)
    requires s.evictor == Evicting
    ensures Can(cfg, s, Evicts)
  {
    if s.used <= Target(cfg) || s.index == map[] {
      assert Does(Evicts, Step<K>.EndEvict) && Enabled(cfg, s, EndEvict);
    } else {
      var key := FindOldest(s.index);
      assert Does(Evicts, EvictEntry(key)) && Enabled(cfg, s, EvictEntry(key));
    }
  }

  lemma EvictorHoldsTheIndex<K>(cfg: Config, s: State<K>, step: Step<K>)
    requires Locked(s) && s.evictor == Evicting && Enabled(cfg, s, step) && !Does(Evicts, step)
    ensures Next(cfg, s, step).evictor == Evicting && Next(cfg, s, step).index == s.index
  {
  }

  /** An eviction takes out one entry after the other, or ends. */
  lemma EvictsSome<K(!new)>(cfg: Config, b: Behaviour<K>, m: nat) returns (k: nat)
    requires IsBehaviour(cfg, b) && Fair(cfg, b) && b.states(m).evictor == Evicting
    ensures m <= k && b.states(k).evictor == Evicting && b.states(k).index == b.states(m).index
    ensures Does(Evicts, b.steps(k))
  {
    var index := b.states(m).index;
    var evicting := (i: nat) => b.states(i).evictor == Evicting && b.states(i).index == index;
    forall i: nat | evicting(i)
      ensures Can(cfg, b.states(i), Evicts)
      ensures !Does(Evicts, b.steps(i)) ==> evicting(i + 1)
    {
      CanEvict(cfg, b.states(i));
      LockedAt(cfg, b, i);
      assert StepAt(cfg, b, i);
      if !Does(Evicts, b.steps(i)) {
        EvictorHoldsTheIndex(cfg, b.states(i), b.steps(i));
      }
    }
    k := DoesSome(cfg, b, Evicts, evicting, m);
  }

  /** The counter is down at the target, or an eviction ends because it has nothing left to evict. */
  ghost predicate Ended<K>(cfg: Config, b: Behaviour<K>, k: nat) {
    b.states(k).used <= Target(cfg) || (b.steps(k) == EndEvict && b.states(k).index.Keys == {})
  }

  /** An eviction that has begun gets the counter down to the target, or empties the index. */
  lemma {:induction false} EvictionGetsThere<K(!new)>(cfg: Config, b: Behaviour<K>, m: nat) returns (k: nat)
    requires IsBehaviour(cfg, b) && Fair(cfg, b) && b.states(m).evictor == Evicting
    ensures m <= k && Ended(cfg, b, k)
    decreases |b.states(m).index|
  {
    k := EvictsSome(cfg, b, m);
    assert StepAt(cfg, b, k);
    if b.steps(k).EvictEntry? {
      assert |b.states(k + 1).index.Keys| < |b.states(k).index.Keys|;
      k := EvictionGetsThere(cfg, b, k + 1);
    }
  }

  lemma WriterHoldsTheLock<K(!new)>(cfg: Config, s: State<K>, step: Step<K>, t: nat)
    requires Locked(s) && s.lock == ByWriter(t) && Enabled(cfg, s, step)
    ensures Can(cfg, s, EndsStore(t))
    ensures Next(cfg, s, step).lock == if Does(EndsStore(t), step) then Free else ByWriter(t)
  {
    assert Does(EndsStore(t), Step<K>.EndStore(t)) && Enabled(cfg, s, EndStore(t));
  }

  /** While an evictor waits for the lock, whoever has it lets go of it. */
  lemma LockIsLetGo<K(!new)>(cfg: Config, b: Behaviour<K>, m: nat) returns (k: nat)
    requires IsBehaviour(cfg, b) && Fair(cfg, b)
    requires forall i: nat :: m <= i ==> b.states(i).evictor == Received
    ensures m <= k && b.states(k).lock == Free
  {
    LockedAt(cfg, b, m);
    k := m;
    if b.states(m).lock != Free {
      var t := b.states(m).lock.t;
      var storing := (i: nat) => b.states(i).lock == ByWriter(t);
      forall i: nat | storing(i)
        ensures Can(cfg, b.states(i), EndsStore(t))
        ensures b.states(i + 1).lock == if Does(EndsStore(t), b.steps(i)) then Free else ByWriter(t)
      {
        LockedAt(cfg, b, i);
        assert StepAt(cfg, b, i);
        WriterHoldsTheLock(cfg, b.states(i), b.steps(i), t);
      }
      k := DoesSome(cfg, b, EndsStore(t), storing, m);
      assert storing(k);
      k := k + 1;
    }
  }

  lemma CanBeginTimeAndAgain<K(!new)>(cfg: Config, b: Behaviour<K>, m: nat)
    requires IsBehaviour(cfg, b) && Fair(cfg, b)
    requires forall i: nat :: m <= i ==> b.states(i).evictor == Received
    ensures Often((i: nat) => Can(cfg, b.states(i), BeginsEviction))
  {
    var free := (i: nat) => Can(cfg, b.states(i), BeginsEviction);
    forall n: nat
      ensures Eventually(free, n)
    {
      var j := LockIsLetGo(cfg, b, if n < m then m else n);
      assert Does(BeginsEviction, Step<K>.BeginEvict) && Enabled(cfg, b.states(j), BeginEvict);
      assert free(j);
    }
  }

  lemma BeginEvicts<K>(cfg: Config, b: Behaviour<K>, k: nat)
    requires IsBehaviour(cfg, b) && b.steps(k) == BeginEvict
    ensures b.states(k + 1).evictor == Evicting
  {
    assert StepAt(cfg, b, k);
  }

  /** An evictor does not wait for the lock for ever. */
  lemma ReceivedEnds<K(!new)>(cfg: Config, b: Behaviour<K>, m: nat)
    requires IsBehaviour(cfg, b) && Fair(cfg, b)
    ensures exists end: nat :: m <= end && b.states(end).evictor != Received
  {
    if forall i: nat :: m <= i ==> b.states(i).evictor == Received {
      CanBeginTimeAndAgain(cfg, b, m);
      var begins := (i: nat) => Does(BeginsEviction, b.steps(i));
      assert Eventually(begins, m);
      var k: nat :| m <= k && begins(k);
      BeginEvicts(cfg, b, k);
      assert false;
    }
  }

  lemma ReceivedOrEvicting<K>(cfg: Config, s: State<K>, step: Step<K>)
    requires s.evictor == Received && Enabled(cfg, s, step)
    ensures Next(cfg, s, step).evictor == Received || Next(cfg, s, step).evictor == Evicting
  {
  }

  /** An evictor that has received a signal gets the lock. */
  lemma ReceivedEvicts<K(!new)>(cfg: Config, b: Behaviour<K>, m: nat) returns (k: nat)
    requires IsBehaviour(cfg, b) && Fair(cfg, b) && b.states(m).evictor == Received
    ensures m <= k && b.states(k).evictor == Evicting
  {
    ReceivedEnds(cfg, b, m);
    var end: nat :| m <= end && b.states(end).evictor != Received;
    k := LastMoment((i: nat) => b.states(i).evictor == Received, m, end);
    assert StepAt(cfg, b, k);
    ReceivedOrEvicting(cfg, b.states(k), b.steps(k));
    k := k + 1;
  }

  lemma SignalStays<K(!new)>(cfg: Config, s: State<K>, step: Step<K>)
    requires s.signal && s.evictor == Waiting && Enabled(cfg, s, step)
    ensures Can(cfg, s, Receives)
    ensures var s' := Next(cfg, s, step);
            if step == Receive then s'.evictor == Received else s'.signal && s'.evictor == Waiting
  {
    assert Does(Receives, Step<K>.Receive) && Enabled(cfg, s, Receive);
  }

  /** A signal in the buffer is received, unless the evictor is busy. */
  lemma SignalIsReceived<K(!new)>(cfg: Config, b: Behaviour<K>, m: nat) returns (k: nat)
    requires IsBehaviour(cfg, b) && Fair(cfg, b) && b.states(m).signal && b.states(m).evictor == Waiting
    ensures m <= k && b.states(k).evictor == Received
  {
    var waiting := (i: nat) => b.states(i).signal && b.states(i).evictor == Waiting;
    forall i: nat | waiting(i)
      ensures Can(cfg, b.states(i), Receives)
      ensures !Does(Receives, b.steps(i)) ==> waiting(i + 1)
    {
      assert StepAt(cfg, b, i);
      SignalStays(cfg, b.states(i), b.steps(i));
    }
    k := DoesSome(cfg, b, Receives, waiting, m);
    assert StepAt(cfg, b, k);
    k := k + 1;
  }

  /** The next step of a `Set` that has stored its entry. */
  function NextOf<K>(w: Writer<K>, t: nat): (step: Step<K>)
    requires !w.Storing?
    ensures Does(ActionOf(w, t), step)
  {
    if w.Stored? then Check(t) else Signal(t)
  }

  function ActionOf<K>(w: Writer<K>, t: nat): Action
    requires !w.Storing?
  {
    if w.Stored? then Checks(t) else Signals(t)
  }

  ghost predicate IsAt<K>(s: State<K>, t: nat, w: Writer<K>) {
    t in s.writers && s.writers[t] == w
  }

  lemma WriterStays<K(!new)>(cfg: Config, s: State<K>, step: Step<K>, t: nat, w: Writer<K>)
    requires !w.Storing? && IsAt(s, t, w) && Enabled(cfg, s, step)
    ensures Can(cfg, s, ActionOf(w, t))
    ensures !Does(ActionOf(w, t), step) ==> IsAt(Next(cfg, s, step), t, w)
  {
    assert Does(ActionOf(w, t), NextOf(w, t)) && Enabled(cfg, s, NextOf(w, t));
  }

  /** A `Set` that has stored its entry goes on to its next step. */
  lemma WriterGoesOn<K(!new)>(cfg: Config, b: Behaviour<K>, t: nat, w: Writer<K>, m: nat) returns (k: nat)
    requires IsBehaviour(cfg, b) && Fair(cfg, b) && IsAt(b.states(m), t, w) && !w.Storing?
    ensures m <= k && IsAt(b.states(k), t, w) && b.steps(k) == NextOf(w, t)
    ensures b.states(k + 1) == Next(cfg, b.states(k), NextOf(w, t))
  {
    var there := (i: nat) => IsAt(b.states(i), t, w);
    forall i: nat | there(i)
      ensures Can(cfg, b.states(i), ActionOf(w, t))
      ensures !Does(ActionOf(w, t), b.steps(i)) ==> there(i + 1)
    {
      assert StepAt(cfg, b, i);
      WriterStays(cfg, b.states(i), b.steps(i), t, w);
    }
    k := DoesSome(cfg, b, ActionOf(w, t), there, m);
    assert StepAt(cfg, b, k);
  }

  /** Once somebody has signalled, an eviction gets the counter down to the target, or empties the index. */
  lemma SignalledComesDown<K(!new)>(cfg: Config, b: Behaviour<K>, n: nat) returns (m: nat)
    requires IsBehaviour(cfg, b) && Fair(cfg, b)
    requires b.states(n).signal || b.states(n).evictor != Waiting
    ensures n <= m && Ended(cfg, b, m)
  {
    m := n;
    if b.states(m).evictor == Waiting {
      m := SignalIsReceived(cfg, b, m);
    }
    if b.states(m).evictor == Received {
      m := ReceivedEvicts(cfg, b, m);
    }
    m := EvictionGetsThere(cfg, b, m);
  }

  lemma SignallingComesDown<K(!new)>(cfg: Config, b: Behaviour<K>, t: nat, n: nat) returns (m: nat)
    requires IsBehaviour(cfg, b) && Fair(cfg, b) && IsAt(b.states(n), t, Signalling)
    ensures n <= m && Ended(cfg, b, m)
  {
    m := WriterGoesOn(cfg, b, t, Signalling, n);
    m := SignalledComesDown(cfg, b, m + 1);
  }

  /** So it is, or a `Set` looks at the counter while it is at the mark or below. */
  ghost predicate IsDown<K>(cfg: Config, b: Behaviour<K>, m: nat) {
    Ended(cfg, b, m) || (b.steps(m).Check? && b.states(m).used <= HighWater(cfg))
  }

  lemma StoredComesDown<K(!new)>(cfg: Config, b: Behaviour<K>, t: nat, n: nat) returns (m: nat)
    requires IsBehaviour(cfg, b) && Fair(cfg, b) && IsAt(b.states(n), t, Stored)
    ensures n <= m && IsDown(cfg, b, m)
  {
    m := WriterGoesOn(cfg, b, t, Stored, n);
    if b.states(m).used > HighWater(cfg) {
      m := SignallingComesDown(cfg, b, t, m + 1);
    }
  }

  /** Whatever readers remove: what someone sees to comes down. The counter gets to the target some time, or an
      eviction empties the index, or a `Set` looks at the counter when it has come down to the mark anyway. */
  lemma CounterComesDown<K(!new)>(cfg: Config, b: Behaviour<K>, n: nat) returns (m: nat)
    requires IsBehaviour(cfg, b) && Fair(cfg, b) && Attended(b.states(n))
    ensures n <= m && IsDown(cfg, b, m)
  {
    if b.states(n).signal || b.states(n).evictor != Waiting {
      m := SignalledComesDown(cfg, b, n);
    } else {
      LockedAt(cfg, b, n);
      var t :| t in Committed(b.states(n));
      if b.states(n).writers[t].Stored? {
        m := StoredComesDown(cfg, b, t, n);
      } else {
        m := SignallingComesDown(cfg, b, t, n);
      }
    }
  }

  /** An eviction that ends misses the target exactly when it has emptied the index and the drift alone is
      larger. */
  lemma EndsAboveTargetIff<K>(cfg: Config, b: Behaviour<K>, k: nat)
    requires IsBehaviour(cfg, b) && b.steps(k) == EndEvict
    ensures b.states(k).used > Target(cfg) <==> b.states(k).index.Keys == {} && -DriftAt(b, k) > Target(cfg)
  {
    PrefixIsRun(cfg, b, k);
    CounterDrifts(cfg, StatesUpTo(b, k), StepsUpTo(b, k), k);
    EmptySum(b.states(k).index);
    assert StepAt(cfg, b, k);
  }

  /** No `Get` ever removes an entry that has replaced a smaller one since it looked. */
  ghost predicate NoneGrows<K>(b: Behaviour<K>) {
    forall i: nat :: Excess(b.states(i), b.steps(i)) >= 0
  }

  /** As long as no `Get` does that, a counter above the mark is seen to, and comes down to the target itself. */
  lemma MarkIsKept<K(!new)>(cfg: Config, b: Behaviour<K>, n: nat) returns (m: nat)
    requires IsBehaviour(cfg, b) && Fair(cfg, b) && NoneGrows(b) && b.states(n).used > HighWater(cfg)
    ensures n <= m
    ensures b.states(m).used <= Target(cfg) || (b.steps(m).Check? && b.states(m).used <= HighWater(cfg))
  {
    NeverStrandedUpTo(cfg, b, n);
    AboveMarkIsAttendedIff(cfg, StatesUpTo(b, n), StepsUpTo(b, n), n);
    m := CounterComesDown(cfg, b, n);
    if b.steps(m) == EndEvict {
      NeverStrandedUpTo(cfg, b, m);
      EndsAboveTargetIff(cfg, b, m);
    }
  }

  lemma NeverStrandedUpTo<K>(cfg: Config, b: Behaviour<K>, n: nat)
    requires IsBehaviour(cfg, b) && NoneGrows(b)
    ensures IsRun(cfg, StatesUpTo(b, n), StepsUpTo(b, n)) && DriftAt(b, n) >= 0
    ensures NeverStrands(cfg, StatesUpTo(b, n), StepsUpTo(b, n), n)
  {
    PrefixIsRun(cfg, b, n);
    NoneGrownNeverStrands(cfg, StatesUpTo(b, n), StepsUpTo(b, n), n);
  }
}
