/** Readers, writers, the evictor and the signal between them, step by step. Each step is one thing that a
    thread does without another getting in between: an atomic access, or something done under the lock. The
    search of an eviction finds an entry that was used longest ago, as it does without an entry under the
    empty key: see `LocalEviction`. */
module HighWaterProtocol {
  import opened Common
  import opened MapSums
  import opened LocalCacheSpec

  /** A `Set` holds the lock with the old entry's size taken off the counter, or it has stored the new
      entry, or it has seen the counter above the mark and is about to signal. */
  datatype Writer<K> = Storing(key: K, entry: Entry, removed: nat) | Stored | Signalling

  /** What a `Get` found for its key before it let go of the lock, and may remove later on. */
  datatype Found<K> = Found(key: K, size: nat)

  datatype Evictor = Waiting | Received | Evicting

  datatype Lock = Free | ByWriter(t: nat) | ByEvictor

  /** `signal` is the one-place buffer of the channel. */
  datatype State<K> = State(index: map<K, Entry>, used: int, signal: bool, evictor: Evictor, lock: Lock,
                            writers: map<nat, Writer<K>>, readers: map<nat, Found<K>>)

  datatype Step<K> =
    | BeginStore(t: nat, key: K, entry: Entry)
    | EndStore(t: nat)
    | Check(t: nat)
    | Signal(t: nat)
    | Receive
    | BeginEvict
    | EvictEntry(key: K)
    | EndEvict
    | Find(t: nat, key: K)
    | Drop(t: nat)
    | Touch(key: K, now: int)
    | Remove(key: K)
    | Clear
    | Idle

  ghost predicate Enabled<K>(cfg: Config, s: State<K>, step: Step<K>) {
    match step
    case BeginStore(t, _, _) => t !in s.writers && s.lock == Free
    case EndStore(t) => t in s.writers && s.writers[t].Storing? && s.lock == ByWriter(t)
    case Check(t) => t in s.writers && s.writers[t] == Stored
    case Signal(t) => t in s.writers && s.writers[t] == Signalling
    case Receive => s.signal && s.evictor == Waiting
    case BeginEvict => s.evictor == Received && s.lock == Free
    case EvictEntry(key) => && s.evictor == Evicting && s.used > Target(cfg) && key in s.index
                            && forall k :: k in s.index ==> s.index[key].accessedAt <= s.index[k].accessedAt
    case EndEvict => s.evictor == Evicting && (s.used <= Target(cfg) || s.index.Keys == {})
    case Find(t, key) => t !in s.readers && s.lock == Free && key in s.index
    case Drop(t) => t in s.readers && s.lock == Free
    case Touch(key, _) => s.lock == Free && key in s.index
    case Remove(key) => s.lock == Free && key in s.index
    case Clear => s.lock == Free
    case Idle => true
  }

  function SizeAt<K(==)>(index: map<K, Entry>, key: K): nat {
    if key in index then index[key].size else 0
  }

  function Next<K(==)>(cfg: Config, s: State<K>, step: Step<K>): State<K> {
    match step
    case BeginStore(t, key, entry) =>
      s.(used := s.used - SizeAt(s.index, key), lock := ByWriter(t),
         writers := s.writers[t := Storing(key, entry, SizeAt(s.index, key))])
    case EndStore(t) =>
      if t in s.writers && s.writers[t].Storing? then
        var w := s.writers[t];
        s.(index := s.index[w.key := w.entry], used := s.used + w.entry.size, lock := Free,
           writers := s.writers[t := Stored])
      else s
    case Check(t) =>
      if s.used > HighWater(cfg) then s.(writers := s.writers[t := Signalling]) else s.(writers := s.writers - {t})
    case Signal(t) => s.(signal := true, writers := s.writers - {t})
    case Receive => s.(signal := false, evictor := Received)
    case BeginEvict => s.(evictor := Evicting, lock := ByEvictor)
    case EvictEntry(key) => TakenOut(s, key)
    case EndEvict => s.(evictor := Waiting, lock := Free)
    case Find(t, key) => s.(readers := s.readers[t := Found(key, SizeAt(s.index, key))])
    case Drop(t) =>
      if t in s.readers then
        s.(index := s.index - {s.readers[t].key}, used := s.used - s.readers[t].size, readers := s.readers - {t})
      else s
    case Touch(key, now) => if key in s.index then s.(index := Touched(s.index, key, now)) else s
    case Remove(key) => TakenOut(s, key)
    case Clear => s.(index := map[], used := 0)
    case Idle => s
  }

  /** A lookup that hits stamps the entry. */
  function Touched<K(==)>(index: map<K, Entry>, key: K, now: int): map<K, Entry>
    requires key in index
  {
    index[key := index[key].(accessedAt := now)]
  }

  function TakenOut<K(==)>(s: State<K>, key: K): State<K> {
    s.(index := s.index - {key}, used := s.used - SizeAt(s.index, key))
  }

  function Initial<K>(): State<K> {
    State(map[], 0, false, Waiting, Free, map[], map[])
  }

  ghost predicate IsRun<K>(cfg: Config, states: seq<State<K>>, steps: seq<Step<K>>) {
    && |states| == |steps| + 1 && states[0] == Initial()
    && forall i :: 0 <= i < |steps| ==>
         Enabled(cfg, states[i], steps[i]) && states[i + 1] == Next(cfg, states[i], steps[i])
  }

  // ---------------------------------------------------------------- the invariant

  /** What a writer that holds the lock has taken off the counter and not put back yet. */
  function Pending<K(==)>(s: State<K>): int {
    if s.lock.ByWriter? && s.lock.t in s.writers && s.writers[s.lock.t].Storing? then s.writers[s.lock.t].removed else 0
  }

  /** One thread at a time has the lock. */
  ghost predicate Locked<K>(s: State<K>) {
    && (s.lock.ByWriter? ==> s.lock.t in s.writers && s.writers[s.lock.t].Storing?)
    && (forall t :: t in s.writers && s.writers[t].Storing? ==>
                      s.lock == ByWriter(t) && s.writers[t].removed == SizeAt(s.index, s.writers[t].key))
    && (s.lock == ByEvictor <==> s.evictor == Evicting)
  }

  /** The sizes of all entries, less what the thread that has the lock has taken off. */
  ghost function Due<K>(s: State<K>): int {
    Sum(Sizes(s.index)) - Pending(s)
  }

  /** What a `Drop` takes off the counter beyond what it takes out of the index. */
  function Excess<K(==)>(s: State<K>, step: Step<K>): int {
    if step.Drop? && step.t in s.readers then s.readers[step.t].size - SizeAt(s.index, s.readers[step.t].key) else 0
  }

  /** The `Set`s that have stored their entry and not yet decided about the signal, or not yet sent it. */
  ghost function Committed<K>(s: State<K>): set<nat> {
    set t | t in s.writers && !s.writers[t].Storing?
  }

  /** Someone will see to it: a signal is in the buffer, the evictor has taken one and is not done, or a
      `Set` is between its commit and its signal. */
  ghost predicate Attended<K>(s: State<K>) {
    s.signal || s.evictor != Waiting || Committed(s) != {}
  }

  ghost predicate Invariant<K>(cfg: Config, s: State<K>) {
    Locked(s) && (s.used > HighWater(cfg) ==> Attended(s))
  }

  lemma RemovedSum<K>(index: map<K, Entry>, key: K)
    ensures Sum(Sizes(index - {key})) == Sum(Sizes(index)) - SizeAt(index, key)
  {
    if key in index {
      SumRemove(Sizes(index), key);
      assert Sizes(index - {key}) == Sizes(index) - {key};
    } else {
      assert index - {key} == index;
    }
  }

  lemma EmptySum<K>(index: map<K, Entry>)
    ensures index.Keys == {} ==> Sum(Sizes(index)) == 0
  {
    if index.Keys == {} {
      assert Sizes(index) == map[];
    }
  }

  /** Whatever the step, the counter follows the sizes, except for what a `Drop` takes off in excess; and
      `Clear` sets it right. */
  lemma StepCounts<K>(cfg: Config, s: State<K>, step: Step<K>)
    requires Locked(s) && Enabled(cfg, s, step)
    ensures Locked(Next(cfg, s, step))
    ensures var s' := Next(cfg, s, step);
            s'.used - Due(s') == if step.Clear? then 0 else s.used - Due(s) - Excess(s, step)
  {
    match step {
      case EndStore(t) => SizesWith(s.index, s.writers[t].key, s.writers[t].entry);
      case EvictEntry(key) => RemovedSum(s.index, key);
      case Drop(t) => RemovedSum(s.index, s.readers[t].key);
      case Touch(key, now) => assert Sizes(Touched(s.index, key, now)) == Sizes(s.index);
      case Remove(key) => RemovedSum(s.index, key);
      case Clear => EmptySum<K>(map[]);
      case _ =>
    }
  }

  lemma TargetBelowMark(cfg: Config)
    ensures Target(cfg) <= HighWater(cfg)
  {
  }

  /** What all `Drop`s since the last `Clear` took off in excess, before step `n`. */
  function Drift<K(==)>(states: seq<State<K>>, steps: seq<Step<K>>, n: nat): int
    requires n <= |steps| < |states|
  {
    if n == 0 || steps[n - 1].Clear? then 0
    else Drift(states, steps, n - 1) + Excess(states[n - 1], steps[n - 1])
  }

  /** In every run the counter is the sum of the sizes less the drift, and less what a `Set` has taken off:
      so with the lock free it is that sum exactly when the drift is nothing. */
  lemma {:induction false} CounterDrifts<K>(cfg: Config, states: seq<State<K>>, steps: seq<Step<K>>, n: nat)
    requires IsRun(cfg, states, steps) && n < |states|
    ensures Locked(states[n]) && states[n].used == Due(states[n]) - Drift(states, steps, n)
    ensures states[n].lock == Free ==> (states[n].used == Sum(Sizes(states[n].index)) <==> Drift(states, steps, n) == 0)
  {
    if n == 0 {
      EmptySum<K>(map[]);
    } else {
      CounterDrifts(cfg, states, steps, n - 1);
      StepCounts(cfg, states[n - 1], steps[n - 1]);
    }
  }

  /** An eviction ends above a level, the target or a higher one, exactly when it has emptied the index and
      the drift alone is that large. */
  lemma EndsAboveIff<K>(cfg: Config, states: seq<State<K>>, steps: seq<Step<K>>, n: nat, level: nat)
    requires IsRun(cfg, states, steps) && n < |steps| && steps[n].EndEvict? && Target(cfg) <= level
    ensures states[n].used > level <==> states[n].index.Keys == {} && -Drift(states, steps, n) > level
    ensures states[n + 1].used == states[n].used
  {
    CounterDrifts(cfg, states, steps, n);
    EmptySum(states[n].index);
  }

  /** An eviction ends with nothing left to evict, the drift above the mark, and nobody to see to it. */
  ghost predicate Strands<K>(cfg: Config, states: seq<State<K>>, steps: seq<Step<K>>, n: nat)
    requires n < |steps| < |states|
  {
    && steps[n].EndEvict? && states[n].index.Keys == {} && -Drift(states, steps, n) > HighWater(cfg)
    && !states[n].signal && Committed(states[n]) == {}
  }

  /** An eviction ends above the mark exactly when it has emptied the index and the drift alone is that
      large; nobody sees to it then unless there is a signal or another `Set`. */
  lemma StrandedIff<K>(cfg: Config, states: seq<State<K>>, steps: seq<Step<K>>, n: nat)
    requires IsRun(cfg, states, steps) && n < |steps| && steps[n].EndEvict?
    ensures states[n + 1].used > HighWater(cfg)
       <==> states[n].index.Keys == {} && -Drift(states, steps, n) > HighWater(cfg)
    ensures Attended(states[n + 1]) <==> states[n].signal || Committed(states[n]) != {}
  {
    TargetBelowMark(cfg);
    EndsAboveIff(cfg, states, steps, n, HighWater(cfg));
    assert Committed(states[n + 1]) == Committed(states[n]);
  }

  /** Any other step than the end of an eviction keeps a counter above the mark attended to. */
  lemma StepKeepsInvariant<K>(cfg: Config, s: State<K>, step: Step<K>)
    requires Invariant(cfg, s) && Enabled(cfg, s, step) && !step.EndEvict?
    ensures Invariant(cfg, Next(cfg, s, step))
  {
    StepCounts(cfg, s, step);
    TargetBelowMark(cfg);
    var s' := Next(cfg, s, step);
    match step {
      case BeginStore(t, _, _) => assert Committed(s') == Committed(s);
      case EndStore(t) => assert t in Committed(s');
      case Check(t) =>
        if s.used > HighWater(cfg) {
          assert t in Committed(s');
        }
      case _ =>
    }
  }

  lemma InvariantNextIff<K>(cfg: Config, states: seq<State<K>>, steps: seq<Step<K>>, n: nat)
    requires IsRun(cfg, states, steps) && n < |steps| && Invariant(cfg, states[n])
    ensures Invariant(cfg, states[n + 1]) <==> !Strands(cfg, states, steps, n)
  {
    StepCounts(cfg, states[n], steps[n]);
    if steps[n].EndEvict? {
      StrandedIff(cfg, states, steps, n);
    } else {
      StepKeepsInvariant(cfg, states[n], steps[n]);
    }
  }

  ghost predicate NeverStrands<K>(cfg: Config, states: seq<State<K>>, steps: seq<Step<K>>, n: nat)
    requires n <= |steps| < |states|
  {
    forall m :: 0 <= m < n ==> !Strands(cfg, states, steps, m)
  }

  /** However the threads interleave: whenever the counter is above the mark someone will see to it, at every
      moment up to `n`, if and only if no eviction before `n` strands. */
  lemma {:induction false} AboveMarkIsAttendedIff<K>(cfg: Config, states: seq<State<K>>, steps: seq<Step<K>>, n: nat)
    requires IsRun(cfg, states, steps) && n < |states|
    ensures (forall i :: 0 <= i <= n ==> Invariant(cfg, states[i])) <==> NeverStrands(cfg, states, steps, n)
  {
    if n > 0 {
      AboveMarkIsAttendedIff(cfg, states, steps, n - 1);
      if Invariant(cfg, states[n - 1]) {
        InvariantNextIff(cfg, states, steps, n - 1);
      }
    }
  }

  /** So once no `Set` is between commit and signal, no signal is left and the evictor waits, the counter
      is below the mark; and so are the bytes that the index counts, up to the drift. */
  lemma QuietCacheIsBelowMark<K>(cfg: Config, states: seq<State<K>>, steps: seq<Step<K>>, n: nat)
    requires IsRun(cfg, states, steps) && n < |states| && NeverStrands(cfg, states, steps, n) && !Attended(states[n])
    ensures states[n].used <= cfg.maxSize * 90 / 100
    ensures states[n].lock == Free ==> Sum(Sizes(states[n].index)) <= cfg.maxSize * 90 / 100 + Drift(states, steps, n)
  {
    CounterDrifts(cfg, states, steps, n);
    AboveMarkIsAttendedIff(cfg, states, steps, n);
  }

  /** No `Get` removes an entry that has replaced a smaller one since it looked. */
  ghost predicate NoneGrown<K>(states: seq<State<K>>, steps: seq<Step<K>>)
    requires |states| == |steps| + 1
  {
    forall i :: 0 <= i < |steps| ==> Excess(states[i], steps[i]) >= 0
  }

  /** What a caller can see to: as long as no `Get` does that, no eviction strands. */
  lemma {:induction false} NoneGrownNeverStrands<K>(cfg: Config, states: seq<State<K>>, steps: seq<Step<K>>, n: nat)
    requires n <= |steps| && |states| == |steps| + 1 && NoneGrown(states, steps)
    ensures Drift(states, steps, n) >= 0 && NeverStrands(cfg, states, steps, n)
  {
    if n > 0 {
      NoneGrownNeverStrands(cfg, states, steps, n - 1);
    }
  }

  lemma Onwards<K>(cfg: Config, states: seq<State<K>>, steps: seq<Step<K>>, step: Step<K>)
    returns (states': seq<State<K>>, steps': seq<Step<K>>)
    requires IsRun(cfg, states, steps) && Enabled(cfg, states[|steps|], step)
    ensures IsRun(cfg, states', steps') && states'[|steps'|] == Next(cfg, states[|steps|], step)
  {
    states', steps' := states + [Next(cfg, states[|steps|], step)], steps + [step];
  }

  lemma SetOnwards<K>(cfg: Config, states: seq<State<K>>, steps: seq<Step<K>>, key: K, entry: Entry)
    returns (states': seq<State<K>>, steps': seq<Step<K>>)
    requires IsRun(cfg, states, steps) && states[|steps|].lock == Free && states[|steps|].writers == map[]
    ensures IsRun(cfg, states', steps')
    ensures var s := states[|steps|];
            states'[|steps'|] == s.(index := s.index[key := entry], used := s.used - SizeAt(s.index, key) + entry.size,
                                    writers := map[0 := Stored])
  {
    states', steps' := Onwards(cfg, states, steps, BeginStore(0, key, entry));
    states', steps' := Onwards(cfg, states', steps', EndStore(0));
  }

  /** A `Get` finds a small entry expired, a `Set` replaces it by a large one, the `Get` removes that and takes
      off the size of the small one. */
  lemma DropOfLarger<K>(cfg: Config, key: K, small: Entry, large: Entry)
    returns (states: seq<State<K>>, steps: seq<Step<K>>)
    requires small.size <= HighWater(cfg)
    ensures IsRun(cfg, states, steps)
    ensures states[|steps|] == State(map[], large.size - small.size, false, Waiting, Free, map[0 := Stored], map[])
  {
    states, steps := SetOnwards(cfg, [Initial()], [], key, small);
    states, steps := Onwards(cfg, states, steps, Check(0));
    assert states[|steps|] == State(map[key := small], small.size, false, Waiting, Free, map[], map[]);
    states, steps := Onwards(cfg, states, steps, Find(0, key));
    states, steps := SetOnwards(cfg, states, steps, key, large);
    states, steps := Onwards(cfg, states, steps, Drop(0));
    assert states[|steps|].index == map[] && states[|steps|].readers == map[];
  }

  /** So it does happen that the eviction which follows leaves an empty cache whose counter is above the mark,
      and nobody sees to it. */
  lemma EmptyAboveMark<K>(cfg: Config, key: K, small: Entry, large: Entry)
    returns (states: seq<State<K>>, steps: seq<Step<K>>)
    requires small.size <= HighWater(cfg) < large.size - small.size
    ensures IsRun(cfg, states, steps)
    ensures var s := states[|steps|]; s.index == map[] && s.used > HighWater(cfg) && !Attended(s)
  {
    states, steps := DropOfLarger(cfg, key, small, large);
    states, steps := Onwards(cfg, states, steps, Check(0));
    states, steps := Onwards(cfg, states, steps, Signal(0));
    assert states[|steps|] == State(map[], large.size - small.size, true, Waiting, Free, map[], map[]);
    states, steps := Onwards(cfg, states, steps, Receive);
    states, steps := Onwards(cfg, states, steps, BeginEvict);
    states, steps := Onwards(cfg, states, steps, EndEvict);
  }

  // ---------------------------------------------------------------- the atomic operations

  /** The protocol's view of a cache at rest. */
  ghost predicate Rests<K>(s: State<K>, c: Cache<K>) {
    s.lock == Free && s.index == c.index && s.used == c.used
  }

  /** A `Set` that no other thread comes into is the atomic one: its steps can be taken one after the other,
      store the entry as the atomic one does, and leave a signal exactly if there was one or the counter is
      above the mark. */
  lemma UndisturbedSet<K>(cfg: Config, s: State<K>, c: Cache<K>, t: nat, key: K, data: seq<byte>, entry: Entry)
    requires Rests(s, c) && t !in s.writers
    ensures var c' := WithEntry(c, key, data, entry);
            var s1 := Next(cfg, s, BeginStore(t, key, entry));
            var s2 := Next(cfg, s1, EndStore(t));
            var s3 := Next(cfg, s2, Check(t));
            var s4 := if c'.used > HighWater(cfg) then Next(cfg, s3, Signal(t)) else s3;
            && Enabled(cfg, s, BeginStore(t, key, entry)) && Enabled(cfg, s1, EndStore(t)) && Enabled(cfg, s2, Check(t))
            && (c'.used > HighWater(cfg) ==> Enabled(cfg, s3, Signal(t)))
            && Rests(s4, c') && s4.writers == s.writers && s4.evictor == s.evictor
            && s4.signal == (s.signal || c'.used > HighWater(cfg))
  {
  }

  /** A `Get` that no other thread comes into is the atomic one: where it hits it stamps its entry, and where it
      finds one that has expired or lost its file it removes that. */
  lemma UndisturbedGet<K>(cfg: Config, s: State<K>, c: Cache<K>, t: nat, key: K, now: int)
    requires Rests(s, c) && t !in s.readers && key in c.index
    ensures Lookup(cfg, c, key, now).Hit? ==>
              Enabled(cfg, s, Touch(key, now)) && Rests(Next(cfg, s, Touch(key, now)), Read(cfg, c, key, now))
    ensures Lookup(cfg, c, key, now) == Miss ==>
              var s1 := Next(cfg, s, Find(t, key));
              var s2 := Next(cfg, s1, Drop(t));
              && Enabled(cfg, s, Find(t, key)) && Enabled(cfg, s1, Drop(t))
              && Rests(s2, Read(cfg, c, key, now)) && s2.readers == s.readers
  {
    assert s.readers[t := Found(key, SizeAt(s.index, key))] - {t} == s.readers;
  }

  /** `Delete` and `Clear` are one step each. */
  lemma RemovalsAreSteps<K>(cfg: Config, s: State<K>, c: Cache<K>, key: K)
    requires Rests(s, c)
    ensures key in c.index ==>
              Enabled(cfg, s, Remove(key)) && Rests(Next(cfg, s, Remove(key)), LocalCacheSpec.Delete(c, key))
    ensures Enabled(cfg, s, Clear) && Rests(Next(cfg, s, Clear), EmptyCache())
  {
  }

  ghost function Evicted<K>(cfg: Config, s: State<K>, victims: seq<K>): State<K>
    decreases |victims|
  {
    if victims == [] then s else Evicted(cfg, Next(cfg, s, EvictEntry(victims[0])), victims[1..])
  }

  /** The victims can be removed one by one. */
  ghost predicate AllEnabled<K>(cfg: Config, s: State<K>, victims: seq<K>)
    decreases |victims|
  {
    victims != [] ==> && Enabled(cfg, s, EvictEntry(victims[0]))
                      && AllEnabled(cfg, Next(cfg, s, EvictEntry(victims[0])), victims[1..])
  }

  /** An eviction that the lock keeps to itself is the atomic one: whatever victims the search came up with
      are steps of the protocol, and leave what the atomic eviction leaves, and then it can end. */
  lemma {:induction false} UndisturbedEviction<K>(cfg: Config, s: State<K>, c: Cache<K>, victims: seq<K>)
    requires s.evictor == Evicting && s.index == c.index && s.used == c.used && EvictionOf(cfg, c, victims)
    ensures AllEnabled(cfg, s, victims)
    ensures var s', c' := Evicted(cfg, s, victims), DeleteAll(c, victims);
            s'.index == c'.index && s'.used == c'.used && Enabled(cfg, s', EndEvict)
    decreases |victims|
  {
    if victims != [] {
      UndisturbedEviction(cfg, Next(cfg, s, EvictEntry(victims[0])), DeleteEntry(c, victims[0]), victims[1..]);
    }
  }
}
