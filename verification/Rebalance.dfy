/** Dividing a GPU's interval among its slots by priority. Times are in nanoseconds. */
module Rebalance {
  import opened Common

  const MIN_SLOT := 10_000_000

  datatype Slot = Slot(id: string, owner: Service, start: int, duration: int, priority: int, active: bool)

  /** A 32-bit signed sum or increment, wrapped as Go wraps it. */
  function Wrap32(x: int): int {
    (x + 0x8000_0000) % 0x1_0000_0000 - 0x8000_0000
  }

  /** Division that truncates toward zero, as the conversion of a quotient to a duration does. */
  function TruncDiv(a: int, b: int): int
    requires b != 0
  {
    var q := (if a < 0 then -a else a) / (if b < 0 then -b else b);
    if (a < 0) == (b < 0) then q else -q
  }

  /** Within 32 bits, and the same up to multiples of two to the 32nd power. */
  lemma Wrap32Is(x: int)
    ensures -0x8000_0000 <= Wrap32(x) < 0x8000_0000 && (x - Wrap32(x)) % 0x1_0000_0000 == 0
  {
    var y := x + 0x8000_0000;
    assert y == y / 0x1_0000_0000 * 0x1_0000_0000 + y % 0x1_0000_0000;
  }

  /** Below zero it mirrors what it does above. */
  lemma TruncDivIs(a: int, n: nat)
    requires n > 0
    ensures TruncDiv(a, n) == if a >= 0 then a / n else -(-a / n)
  {
  }

  function TotalPriority(slots: seq<Slot>): int {
    if slots == [] then 0
    else Wrap32(TotalPriority(slots[..|slots| - 1]) + Wrap32(slots[|slots| - 1].priority + 1))
  }

  /** A slot's part of the interval, exact rather than through floating point. If the weights wrap to a
      sum of zero, the source converts an infinite quotient to a duration, which Go leaves to the platform:
      on amd64 it is negative, and the slot gets the minimum, as here; where such a conversion saturates it
      is the longest duration there is. */
  function Share(interval: int, priority: int, total: int): int {
    if total == 0 then 0 else TruncDiv(interval * Wrap32(priority + 1), total)
  }

  function Length(interval: int, priority: int, total: int): int {
    var share := Share(interval, priority, total);
    if share < MIN_SLOT then MIN_SLOT else share
  }

  function Offset(slots: seq<Slot>, interval: int, total: int, i: nat): int
    requires i <= |slots|
  {
    if i == 0 then 0 else Offset(slots, interval, total, i - 1) + Length(interval, slots[i - 1].priority, total)
  }

  function Laid(slots: seq<Slot>, interval: int, total: int): seq<Slot> {
    seq(|slots|, i requires 0 <= i < |slots| =>
      slots[i].(start := Offset(slots, interval, total, i), duration := Length(interval, slots[i].priority, total)))
  }

  /** Lets the last slot end with the interval, if all slots together end before. */
  function Stretched(slots: seq<Slot>, interval: int, offset: int): seq<Slot>
    requires slots != []
  {
    var last := |slots| - 1;
    if offset < interval then slots[last := slots[last].(duration := slots[last].duration + (interval - offset))]
    else slots
  }

  /** Slots in an order, each with its start and duration. */
  function Assign(slots: seq<Slot>, interval: int): seq<Slot>
    requires slots != []
  {
    var total := TotalPriority(slots);
    Stretched(Laid(slots, interval, total), interval, Offset(slots, interval, total, |slots|))
  }

  function Allocated(slots: seq<Slot>, interval: int): int {
    Offset(slots, interval, TotalPriority(slots), |slots|)
  }

  // ---------------------------------------------------------------- tiling

  function End(s: Slot): int {
    s.start + s.duration
  }

  /** One slot after the other from zero, none below the minimum. */
  ghost predicate Contiguous(slots: seq<Slot>) {
    && (slots != [] ==> slots[0].start == 0)
    && (forall i :: 0 <= i < |slots| - 1 ==> slots[i + 1].start == End(slots[i]))
    && forall i :: 0 <= i < |slots| ==> slots[i].duration >= MIN_SLOT
  }

  /** Whatever the priorities and the interval: the slots are laid end to end, and end with the interval
      or, if the minimal lengths do not fit in, after it. */
  lemma AssignTiles(slots: seq<Slot>, interval: int)
    requires slots != []
    ensures Contiguous(Assign(slots, interval)) && |Assign(slots, interval)| == |slots|
    ensures End(Assign(slots, interval)[|slots| - 1]) == Max(Allocated(slots, interval), interval)
    ensures forall i :: 0 <= i < |slots| ==> Assign(slots, interval)[i].duration >= 10_000_000
  {
    var total := TotalPriority(slots);
    var laid := Laid(slots, interval, total);
    assert forall i :: 0 <= i < |slots| ==> End(laid[i]) == Offset(slots, interval, total, i + 1);
  }

  // ---------------------------------------------------------------- shares

  function WeightSum(slots: seq<Slot>, i: nat): int
    requires i <= |slots|
  {
    if i == 0 then 0 else WeightSum(slots, i - 1) + slots[i - 1].priority + 1
  }

  function ShareSum(slots: seq<Slot>, interval: int, total: int, i: nat): int
    requires i <= |slots|
  {
    if i == 0 then 0 else ShareSum(slots, interval, total, i - 1) + Share(interval, slots[i - 1].priority, total)
  }

  /** Priorities as they are meant: none negative, and their weights add up within 32 bits. */
  ghost predicate Plain(slots: seq<Slot>) {
    && slots != []
    && (forall i :: 0 <= i < |slots| ==> 0 <= slots[i].priority)
    && WeightSum(slots, |slots|) < 0x8000_0000
  }

  lemma {:induction false} WeightSumGrows(slots: seq<Slot>, i: nat, j: nat)
    requires i <= j <= |slots|
    requires forall i :: 0 <= i < |slots| ==> 0 <= slots[i].priority
    ensures WeightSum(slots, i) + (j - i) <= WeightSum(slots, j)
    decreases j
  {
    if i < j {
      WeightSumGrows(slots, i, j - 1);
    }
  }

  /** Nothing wraps: the total is the plain sum of the weights. */
  lemma {:induction false} TotalIsWeightSum(slots: seq<Slot>, i: nat)
    requires Plain(slots) && i <= |slots|
    ensures TotalPriority(slots[..i]) == WeightSum(slots, i)
  {
    if i > 0 {
      TotalIsWeightSum(slots, i - 1);
      assert slots[..i][..i - 1] == slots[..i - 1];
      WeightSumGrows(slots, i, |slots|);
      WeightSumGrows(slots, 0, i - 1);
    }
  }

  lemma PriorityBelowTotal(slots: seq<Slot>, i: nat)
    requires Plain(slots) && i < |slots|
    ensures 0 < slots[i].priority + 1 <= WeightSum(slots, |slots|)
    ensures Wrap32(slots[i].priority + 1) == slots[i].priority + 1
  {
    WeightSumGrows(slots, 0, i);
    WeightSumGrows(slots, i + 1, |slots|);
  }

  lemma DivBounds(a: nat, b: nat, q: int)
    requires b > 0 && q == a / b
    ensures 0 <= q && b * q <= a < b * q + b
  {
  }

  lemma MulNonNegative(a: nat, b: nat)
    ensures a * b >= 0
  {
  }

  lemma ShareIsQuotient(interval: nat, priority: nat, total: int)
    requires total > 0 && priority + 1 < 0x8000_0000
    ensures interval * (priority + 1) >= 0
    ensures Share(interval, priority, total) == interval * (priority + 1) / total
  {
    MulNonNegative(interval, priority + 1);
  }

  lemma ShareBoundsAt(interval: nat, priority: nat, total: int, share: int)
    requires total > 0 && priority + 1 < 0x8000_0000 && share == Share(interval, priority, total)
    ensures 0 <= share && total * share <= interval * (priority + 1) < total * share + total
  {
    ShareIsQuotient(interval, priority, total);
    DivBounds(interval * (priority + 1), total, share);
  }

  /** A share is the exact quotient, rounded down. */
  lemma ShareBounds(slots: seq<Slot>, interval: nat, total: int, i: nat)
    requires Plain(slots) && i < |slots| && total == WeightSum(slots, |slots|)
    ensures Share(interval, slots[i].priority, total) >= 0
    ensures total * Share(interval, slots[i].priority, total) <= interval * (slots[i].priority + 1)
    ensures interval * (slots[i].priority + 1) < total * Share(interval, slots[i].priority, total) + total
  {
    PriorityBelowTotal(slots, i);
    ShareBoundsAt(interval, slots[i].priority, total, Share(interval, slots[i].priority, total));
  }

  /** Adding one share to a sum of shares, and its weight to the sum of weights. */
  lemma BoundsAdd(total: int, interval: int, shares: int, share: int, weights: int, w: int, i: int)
    requires total * shares <= interval * weights <= total * shares + i * (total - 1)
    requires total * share <= interval * w < total * share + total
    ensures total * (shares + share) <= interval * (weights + w)
    ensures interval * (weights + w) <= total * (shares + share) + (i + 1) * (total - 1)
  {
    assert total * (shares + share) == total * shares + total * share;
    assert interval * (weights + w) == interval * weights + interval * w;
    assert (i + 1) * (total - 1) == i * (total - 1) + (total - 1);
  }

  lemma {:induction false} ShareSumBounds(slots: seq<Slot>, interval: nat, total: int, i: nat)
    requires Plain(slots) && i <= |slots| && total == WeightSum(slots, |slots|)
    ensures total * ShareSum(slots, interval, total, i) <= interval * WeightSum(slots, i)
    ensures interval * WeightSum(slots, i) <= total * ShareSum(slots, interval, total, i) + i * (total - 1)
  {
    if i > 0 {
      ShareSumBounds(slots, interval, total, i - 1);
      ShareBounds(slots, interval, total, i - 1);
      BoundsAdd(total, interval, ShareSum(slots, interval, total, i - 1), Share(interval, slots[i - 1].priority, total),
                WeightSum(slots, i - 1), slots[i - 1].priority + 1, i - 1);
    }
  }

  lemma MulLess(t: int, a: int, b: int)
    requires t > 0
    ensures t * a < t * b <==> a < b
  {
  }

  /** The shares never exceed the interval, and leave less than a nanosecond a slot of it. */
  lemma SharesFillInterval(slots: seq<Slot>, interval: nat)
    requires Plain(slots)
    ensures var total := WeightSum(slots, |slots|);
            ShareSum(slots, interval, total, |slots|) <= interval < ShareSum(slots, interval, total, |slots|) + |slots|
  {
    var n, total := |slots|, WeightSum(slots, |slots|);
    WeightSumGrows(slots, 0, n);
    ShareSumBounds(slots, interval, total, n);
    var sum := ShareSum(slots, interval, total, n);
    assert interval * total == total * interval;
    MulLess(total, interval, sum);
    assert n * (total - 1) == total * n - n;
    assert total * (sum + n) == total * sum + total * n;
    MulLess(total, interval, sum + n);
  }

  lemma {:induction false} OffsetBounds(slots: seq<Slot>, interval: int, total: int, i: nat)
    requires i <= |slots|
    requires forall j :: 0 <= j < i ==> Share(interval, slots[j].priority, total) >= 0
    ensures ShareSum(slots, interval, total, i) <= Offset(slots, interval, total, i)
              <= ShareSum(slots, interval, total, i) + i * MIN_SLOT
    ensures (forall j :: 0 <= j < i ==> Share(interval, slots[j].priority, total) >= MIN_SLOT) ==>
              Offset(slots, interval, total, i) == ShareSum(slots, interval, total, i)
  {
    if i > 0 {
      OffsetBounds(slots, interval, total, i - 1);
    }
  }

  lemma PlainShares(slots: seq<Slot>, interval: nat)
    requires Plain(slots)
    ensures TotalPriority(slots) == WeightSum(slots, |slots|) > 0
    ensures forall j :: 0 <= j < |slots| ==> Share(interval, slots[j].priority, TotalPriority(slots)) >= 0
  {
    TotalIsWeightSum(slots, |slots|);
    assert slots[..|slots|] == slots;
    PriorityBelowTotal(slots, 0);
    forall j | 0 <= j < |slots|
      ensures Share(interval, slots[j].priority, TotalPriority(slots)) >= 0
    {
      ShareBounds(slots, interval, TotalPriority(slots), j);
    }
  }

  /** An interval of the minimum for every unit of weight is filled exactly. */
  lemma WideIntervalIsFilled(slots: seq<Slot>, interval: nat)
    requires Plain(slots) && interval >= 10_000_000 * WeightSum(slots, |slots|)
    ensures Allocated(slots, interval) <= interval
    ensures End(Assign(slots, interval)[|slots| - 1]) == interval
  {
    PlainShares(slots, interval);
    var total := TotalPriority(slots);
    forall j | 0 <= j < |slots|
      ensures Share(interval, slots[j].priority, total) >= MIN_SLOT
    {
      ShareBounds(slots, interval, total, j);
      WideShare(interval, slots[j].priority + 1, total, Share(interval, slots[j].priority, total));
    }
    SharesFillInterval(slots, interval);
    OffsetBounds(slots, interval, total, |slots|);
    AssignTiles(slots, interval);
  }

  lemma WideShare(interval: nat, w: nat, total: nat, share: int)
    requires w > 0 && interval >= MIN_SLOT * total && interval * w < total * share + total
    ensures share >= MIN_SLOT
  {
    assert interval * w >= interval by {
      MulNonNegative(interval, w - 1);
      assert interval * w == interval * (w - 1) + interval;
    }
    assert total * (share + 1) == total * share + total;
    if total > 0 {
      MulLess(total, MIN_SLOT, share + 1);
    }
  }

  lemma StretchedBounds(laid: seq<Slot>, interval: int, offset: int, i: nat)
    requires i < |laid|
    ensures laid[i].duration <= Stretched(laid, interval, offset)[i].duration
         <= laid[i].duration + Max(0, interval - offset)
  {
  }

  lemma DurationBounds(slots: seq<Slot>, interval: int, i: nat)
    requires i < |slots|
    ensures var laid := Laid(slots, interval, TotalPriority(slots));
            laid[i].duration <= Assign(slots, interval)[i].duration
              <= laid[i].duration + Max(0, interval - Allocated(slots, interval))
  {
    var total := TotalPriority(slots);
    StretchedBounds(Laid(slots, interval, total), interval, Offset(slots, interval, total, |slots|), i);
  }

  lemma LengthIs(slots: seq<Slot>, interval: nat, i: nat)
    requires Plain(slots) && i < |slots|
    ensures WeightSum(slots, |slots|) > 0
    ensures Length(interval, slots[i].priority, TotalPriority(slots))
         == Max(10_000_000, interval * (slots[i].priority + 1) / WeightSum(slots, |slots|))
  {
    PlainShares(slots, interval);
    PriorityBelowTotal(slots, i);
    ShareIsQuotient(interval, slots[i].priority, TotalPriority(slots));
  }

  lemma {:induction false} TotalPrioritySame(a: seq<Slot>, b: seq<Slot>)
    requires |a| == |b| && forall i :: 0 <= i < |a| ==> a[i].priority == b[i].priority
    ensures TotalPriority(a) == TotalPriority(b)
  {
    if a != [] {
      TotalPrioritySame(a[..|a| - 1], b[..|b| - 1]);
    }
  }

  /** The total is where the last slot would end without what is left over. */
  lemma AllocatedIs(slots: seq<Slot>, interval: int)
    requires slots != []
    ensures var last := Assign(slots, interval)[|slots| - 1];
            Allocated(slots, interval) == last.start + Length(interval, last.priority, TotalPriority(slots))
  {
  }

  lemma StretchedIs(laid: seq<Slot>, interval: int, offset: int, i: nat)
    requires i < |laid|
    ensures Stretched(laid, interval, offset)[i].duration
         == laid[i].duration + if i == |laid| - 1 then Max(0, interval - offset) else 0
  {
  }

  /** Every slot lasts for its part of the interval by weight, rounded down, or for ten milliseconds where that is
      more; the last one, besides, for whatever the interval has left over. */
  lemma DurationIsShare(slots: seq<Slot>, interval: nat, i: nat)
    requires Plain(slots) && i < |slots|
    ensures WeightSum(slots, |slots|) > 0
    ensures var left := if i == |slots| - 1 then Max(0, interval - Allocated(slots, interval)) else 0;
            Assign(slots, interval)[i].duration
              == Max(10_000_000, interval * (slots[i].priority + 1) / WeightSum(slots, |slots|)) + left
  {
    LengthIs(slots, interval, i);
    StretchedIs(Laid(slots, interval, TotalPriority(slots)), interval, Allocated(slots, interval), i);
  }

  /** Of `n` slots, one of higher priority is at most `n - 1` nanoseconds behind one of lower; two of equal
      priority therefore differ by no more than that. */
  lemma PriorityOrdersDurations(slots: seq<Slot>, interval: nat, i: nat, j: nat)
    requires Plain(slots) && i < |slots| && j < |slots| && slots[i].priority >= slots[j].priority
    ensures Assign(slots, interval)[j].duration <= Assign(slots, interval)[i].duration + |slots| - 1
  {
    PlainShares(slots, interval);
    PriorityBelowTotal(slots, i);
    ShareMonotone(interval, slots[j].priority, slots[i].priority, TotalPriority(slots));
    AllocatedBounds(slots, interval);
    DurationBounds(slots, interval, i);
    DurationBounds(slots, interval, j);
  }

  /** The slots use up the interval to within a nanosecond a slot, and overrun it by no more than the
      minimum a slot. */
  lemma AllocatedBounds(slots: seq<Slot>, interval: nat)
    requires Plain(slots)
    ensures interval - |slots| < Allocated(slots, interval) <= interval + |slots| * 10_000_000
  {
    PlainShares(slots, interval);
    SharesFillInterval(slots, interval);
    OffsetBounds(slots, interval, TotalPriority(slots), |slots|);
  }

  lemma ShareMonotone(interval: nat, p: nat, q: nat, total: int)
    requires p <= q && total > 0 && q + 1 < 0x8000_0000
    ensures Share(interval, p, total) <= Share(interval, q, total)
  {
    var a, b := interval * (p + 1), interval * (q + 1);
    MulNonNegative(interval, p + 1);
    MulNonNegative(interval, q - p);
    assert b == a + interval * (q - p);
    DivBounds(a, total, a / total);
    DivBounds(b, total, b / total);
    assert total * (b / total + 1) == total * (b / total) + total;
    MulLess(total, a / total, b / total + 1);
  }

  /** Default priorities: the slots tile the interval exactly if and only if every slot can have the
      minimum within it. */
  lemma DefaultSlotsFillIff(slots: seq<Slot>, interval: int)
    requires slots != [] && |slots| < 0x8000_0000
    requires forall i :: 0 <= i < |slots| ==> slots[i].priority == 0
    ensures End(Assign(slots, interval)[|slots| - 1]) == interval <==> interval >= |slots| * 10_000_000
  {
    WeightOfDefaults(slots, |slots|);
    if interval >= |slots| * MIN_SLOT {
      WideIntervalIsFilled(slots, interval);
    } else {
      TotalIsWeightSum(slots, |slots|);
      assert slots[..|slots|] == slots;
      ShortShare(interval, |slots|);
      OffsetOfMinimums(slots, interval, |slots|, |slots|);
      AssignTiles(slots, interval);
    }
  }

  lemma {:induction false} WeightOfDefaults(slots: seq<Slot>, i: nat)
    requires i <= |slots| && forall i :: 0 <= i < |slots| ==> slots[i].priority == 0
    ensures WeightSum(slots, i) == i
  {
    if i > 0 {
      WeightOfDefaults(slots, i - 1);
    }
  }

  lemma ShortShare(interval: int, n: nat)
    requires 0 < n && interval < n * MIN_SLOT
    ensures Share(interval, 0, n) < MIN_SLOT
  {
    if interval >= 0 {
      DivBounds(interval, n, interval / n);
      MulLess(n, interval / n, MIN_SLOT);
    } else {
      DivBounds(-interval, n, -interval / n);
      MulLess(n, -1, -interval / n);
    }
  }

  lemma {:induction false} OffsetOfMinimums(slots: seq<Slot>, interval: int, total: int, i: nat)
    requires i <= |slots| && Share(interval, 0, total) < MIN_SLOT
    requires forall i :: 0 <= i < |slots| ==> slots[i].priority == 0
    ensures Offset(slots, interval, total, i) == i * MIN_SLOT
  {
    if i > 0 {
      OffsetOfMinimums(slots, interval, total, i - 1);
    }
  }
}
