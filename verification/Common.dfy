/** Types shared by every component, and the two keys the managers index by. */
module Common {
  type byte = x: int | 0 <= x < 256
  newtype int32 = x: int | -0x8000_0000 <= x < 0x8000_0000

  datatype Option<+T> = None | Some(value: T)

  /** `node/device`: a GPU of the cluster. */
  datatype GpuKey = GpuKey(node: string, device: string)

  /** `namespace/service`: the owner of an allocation. */
  datatype Service = Service(ns: string, name: string)

  /** The source joins both pairs with a slash; this is how a key is spelled there. */
  function Join(a: string, b: string): string {
    a + "/" + b
  }

  /** Keys may be kept as pairs: on names without a slash the joined spelling loses nothing. */
  lemma {:induction false} JoinInjective(a: string, b: string, c: string, d: string)
    requires '/' !in a && '/' !in c
    ensures Join(a, b) == Join(c, d) <==> a == c && b == d
  {
    if Join(a, b) == Join(c, d) {
      var s, t := Join(a, b), Join(c, d);
      assert s[|a|] == '/' && t[|c|] == '/';
      assert forall i :: 0 <= i < |a| ==> s[i] == a[i] && a[i] != '/';
      assert forall i :: 0 <= i < |c| ==> t[i] == c[i] && c[i] != '/';
      assert |a| == |c|;
      assert s[..|a|] == a && t[..|c|] == c;
      assert s[|a| + 1..] == b && t[|c| + 1..] == d;
    }
  }

  function Max(a: int, b: int): int {
    if a >= b then a else b
  }

  /** A number in decimal, without leading zeros. */
  function Decimal(n: nat): (digits: string)
    ensures digits != [] && '-' !in digits
  {
    var digit := ['0' + (n % 10) as char];
    if n < 10 then digit else Decimal(n / 10) + digit
  }

  /** What a decimal number stands for, whatever its digits. */
  function ValueOf(digits: string): int {
    if digits == [] then 0 else 10 * ValueOf(digits[..|digits| - 1]) + digits[|digits| - 1] as int - '0' as int
  }

  /** Digits only, the most significant one first, and no zero in front. */
  lemma {:induction false} DecimalIs(n: nat)
    ensures forall i :: 0 <= i < |Decimal(n)| ==> '0' <= Decimal(n)[i] <= '9'
    ensures ValueOf(Decimal(n)) == n
    ensures n > 0 ==> Decimal(n)[0] != '0'
  {
    if n >= 10 {
      DecimalIs(n / 10);
      var d := Decimal(n);
      assert d[..|d| - 1] == Decimal(n / 10);
    }
  }

  lemma {:induction false} DecimalInjective(m: nat, n: nat)
    requires Decimal(m) == Decimal(n)
    ensures m == n
  {
    var a, b := Decimal(m), Decimal(n);
    assert a[|a| - 1] == b[|b| - 1] && a[..|a| - 1] == b[..|b| - 1];
    assert m % 10 == n % 10;
    if m >= 10 && n >= 10 {
      assert a[..|a| - 1] == Decimal(m / 10) && b[..|b| - 1] == Decimal(n / 10);
      DecimalInjective(m / 10, n / 10);
    } else {
      assert m < 10 <==> |a| == 1;
      assert n < 10 <==> |b| == 1;
    }
  }

  /** The source numbers names like this. */
  function Numbered(name: string, n: nat): string {
    name + "-" + Decimal(n)
  }

  lemma {:induction false} LastDash(a: string, x: string, b: string, y: string)
    requires '-' !in x && '-' !in y && a + "-" + x == b + "-" + y
    ensures a == b && x == y
  {
    var s, t := a + "-" + x, b + "-" + y;
    assert s[|a|] == '-' && t[|b|] == '-';
    assert forall i :: |a| < i < |s| ==> s[i] == x[i - |a| - 1] && s[i] in x;
    assert forall i :: |b| < i < |t| ==> t[i] == y[i - |b| - 1] && t[i] in y;
    assert |a| == |b|;
    assert s[..|a|] == a && t[..|b|] == b;
    assert s[|a| + 1..] == x && t[|b| + 1..] == y;
  }

  /** The number follows the last dash, so numbering loses nothing, whatever dashes the name has. */
  lemma NumberedInjective(a: string, m: nat, b: string, n: nat)
    ensures Numbered(a, m) == Numbered(b, n) <==> a == b && m == n
  {
    if Numbered(a, m) == Numbered(b, n) {
      LastDash(a, Decimal(m), b, Decimal(n));
      DecimalInjective(m, n);
    }
  }

  ghost predicate Repeats<T>(s: seq<T>, i: int, j: int) {
    0 <= i < j < |s| && s[i] == s[j]
  }

  ghost predicate Distinct<T>(s: seq<T>) {
    forall i, j {:trigger Repeats(s, i, j)} :: !Repeats(s, i, j)
  }

  /** What a list of distinct elements is made of. */
  lemma DistinctSplit<T>(s: seq<T>, t: seq<T>)
    ensures Distinct(s + t) <==> Distinct(s) && Distinct(t) && forall x :: x in s ==> x !in t
  {
    if Distinct(s + t) {
      forall i, j
        ensures !Repeats(s, i, j) && !Repeats(t, i, j)
      {
        assert !Repeats(s + t, i, j) && !Repeats(s + t, |s| + i, |s| + j);
      }
      forall x | x in s
        ensures x !in t
      {
        var i :| 0 <= i < |s| && s[i] == x;
        assert forall j :: 0 <= j < |t| ==> !Repeats(s + t, i, |s| + j) && (s + t)[|s| + j] == t[j];
      }
    } else {
      var i, j :| Repeats(s + t, i, j);
      assert Repeats(s, i, j) || Repeats(t, i - |s|, j - |s|) || (s[i] in s && t[j - |s|] in t);
    }
  }

  lemma DistinctAppend<T>(s: seq<T>, x: T)
    requires Distinct(s) && x !in s
    ensures Distinct(s + [x])
  {
    DistinctSplit(s, [x]);
  }

  /** What holds at first and goes on holding always holds. */
  lemma {:induction false} Always(p: nat -> bool, n: nat)
    requires p(0) && forall i: nat :: i < n && p(i) ==> p(i + 1)
    ensures p(n)
  {
    if n > 0 {
      Always(p, n - 1);
      assert p(n - 1) ==> p(n - 1 + 1);
    }
  }

  ghost predicate Submap<K, V>(a: map<K, V>, b: map<K, V>) {
    forall k :: k in a ==> k in b && a[k] == b[k]
  }
}

/** Sums over finite maps: the meaning of every size, entry and room counter. */
module MapSums {
  ghost function Sum<K>(m: map<K, int>): int {
    if m == map[] then 0 else
      var k :| k in m;
      m[k] + Sum(m - {k})
  }

  /** The sum does not depend on the order in which keys are taken out. */
  lemma {:induction false} SumRemove<K>(m: map<K, int>, k: K)
    requires k in m
    ensures Sum(m) == m[k] + Sum(m - {k})
    decreases |m|
  {
    var j :| j in m && Sum(m) == m[j] + Sum(m - {j});
    if j != k {
      SumRemove(m - {j}, k);
      SumRemove(m - {k}, j);
      assert m - {j} - {k} == m - {k} - {j};
    }
  }

  lemma SumInsert<K>(m: map<K, int>, k: K, v: int)
    ensures Sum(m[k := v]) == Sum(m - {k}) + v
    ensures k in m ==> Sum(m[k := v]) == Sum(m) - m[k] + v
    ensures k !in m ==> Sum(m[k := v]) == Sum(m) + v
  {
    SumRemove(m[k := v], k);
    assert m[k := v] - {k} == m - {k};
    if k in m {
      SumRemove(m, k);
    } else {
      assert m - {k} == m;
    }
  }

  lemma {:induction false} SumNonNegative<K>(m: map<K, int>)
    requires forall k :: k in m ==> m[k] >= 0
    ensures Sum(m) >= 0
    ensures forall k :: k in m ==> m[k] <= Sum(m)
    decreases |m|
  {
    forall k | k in m
      ensures 0 <= m[k] <= Sum(m)
    {
      SumRemove(m, k);
      SumNonNegative(m - {k});
    }
  }

  lemma {:induction false} SumConstant<K>(m: map<K, int>, c: int)
    requires forall k :: k in m ==> m[k] == c
    ensures Sum(m) == c * |m.Keys|
    decreases |m|
  {
    if m != map[] {
      var k :| k in m;
      SumRemove(m, k);
      SumConstant(m - {k}, c);
      assert (m - {k}).Keys == m.Keys - {k};
      Distribute(c, |(m - {k}).Keys|, |m.Keys|);
    }
  }

  lemma Distribute(c: int, m: int, n: int)
    requires n == m + 1
    ensures c * n == c * m + c
  {
  }
}

/** Placing clients on devices of a fixed capacity, as both sharing managers do it:
    `load` is what each configured device carries, `pool` the devices that may be configured. */
module Capacity {
  import opened MapSums

  ghost function LoadOf<K>(load: map<K, int>, k: K): int {
    if k in load then load[k] else 0
  }

  /** Every device counts, configured or not: one that is not configured yet is wholly free. */
  ghost function Free<K>(load: map<K, int>, cap: int, pool: set<K>): map<K, int> {
    map k | k in load.Keys + pool :: cap - LoadOf(load, k)
  }

  /** The devices that a pool lists. */
  ghost function Devices<K>(gpus: seq<K>): set<K> {
    set k | k in gpus
  }

  ghost function Room<K>(load: map<K, int>, cap: int, pool: set<K>): int {
    Sum(Free(load, cap, pool))
  }

  /** A device that can take one more client: a configured one with room, or, only when there is
      none, a device of the pool that is not configured yet. */
  ghost predicate Placeable<K>(load: map<K, int>, cap: nat, pool: set<K>, k: K) {
    if k in load then load[k] < cap
    else k in pool && forall j :: j in load ==> load[j] >= cap
  }

  ghost function PlacedOn<K>(load: map<K, int>, k: K): map<K, int> {
    load[k := LoadOf(load, k) + 1]
  }

  ghost predicate Bounded<K>(load: map<K, int>, cap: int) {
    forall k :: k in load ==> 0 <= load[k] <= cap
  }

  /** One placement uses up exactly one unit of room, whichever device is picked. */
  lemma RoomPlace<K>(load: map<K, int>, cap: int, pool: set<K>, k: K)
    requires k in load.Keys + pool
    ensures Room(PlacedOn(load, k), cap, pool) == Room(load, cap, pool) - 1
  {
    var free := Free(load, cap, pool);
    assert Free(PlacedOn(load, k), cap, pool) == free[k := free[k] - 1];
    SumInsert(free, k, free[k] - 1);
  }

  /** There is room exactly when some device can take a client. */
  lemma RoomIffPlaceable<K>(load: map<K, int>, cap: int, pool: set<K>)
    requires Bounded(load, cap) && cap > 0
    ensures Room(load, cap, pool) >= 0
    ensures Room(load, cap, pool) > 0 <==> exists k :: Placeable(load, cap, pool, k)
  {
    var free := Free(load, cap, pool);
    SumNonNegative(free);
    if k :| k in load && load[k] < cap {
      assert Placeable(load, cap, pool, k);
      assert free[k] > 0;
    } else if k :| k in pool && k !in load {
      assert Placeable(load, cap, pool, k);
      assert free[k] > 0;
    } else {
      SumConstant(free, 0);
    }
  }

  /** With nothing configured, the room is the capacity of every device of the pool. */
  lemma RoomOfFreshPool<K>(cap: int, pool: set<K>)
    ensures Room(map[], cap, pool) == cap * |pool|
  {
    var free := Free(map[], cap, pool);
    assert free.Keys == pool;
    SumConstant(free, cap);
  }
}
