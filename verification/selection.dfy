/** The two choices `AssignOrders` makes on each pass: which pending order
    goes next, and which driver takes it. */
module Selection {
  import opened Options
  import opened Seqs
  import opened Orders
  import opened Drivers

  /** The queue as `OrderByDescending(o => o.IsVip)` sees it, written as the
      queue positions in sorted order. LINQ's ordering is stable and `true`
      sorts above `false`, so this is the VIP positions in queue order followed
      by the regular positions in queue order. */
  function VipFirst(q: seq<Order>): (r: seq<nat>)
    ensures |r| == |q|
    ensures forall k :: 0 <= k < |r| ==> r[k] < |q|
  {
    IndicesPartition(q, IsVip, IsRegular);
    IndicesWhere(q, IsVip) + IndicesWhere(q, IsRegular)
  }

  /** `VipFirst` is a stable VIP-first sort: every queue position appears in
      it, VIP orders come before regular ones, and within each priority the
      positions increase. */
  lemma {:induction false} VipFirstIsStableSort(q: seq<Order>)
    ensures forall i :: 0 <= i < |q| ==> i in VipFirst(q)
    ensures var r := VipFirst(q);
            forall a, b :: 0 <= a < b < |r| && q[r[b]].isVip ==> q[r[a]].isVip
    ensures var r := VipFirst(q);
            forall a, b :: 0 <= a < b < |r| && q[r[a]].isVip == q[r[b]].isVip ==> r[a] < r[b]
  {
    IndicesWhereExact(q, IsVip);
    IndicesWhereExact(q, IsRegular);
    VipsThenRegulars(q, IndicesWhere(q, IsVip), IndicesWhere(q, IsRegular));
  }

  /** The ordering facts behind `VipFirst`, for any two lists of VIP and
      regular positions that are each increasing and together cover the queue. */
  lemma {:induction false} VipsThenRegulars(q: seq<Order>, vips: seq<nat>, regulars: seq<nat>)
    requires forall k :: 0 <= k < |vips| ==> vips[k] < |q| && q[vips[k]].isVip
    requires forall k :: 0 <= k < |regulars| ==> regulars[k] < |q| && !q[regulars[k]].isVip
    requires forall k, m :: 0 <= k < m < |vips| ==> vips[k] < vips[m]
    requires forall k, m :: 0 <= k < m < |regulars| ==> regulars[k] < regulars[m]
    requires forall i :: 0 <= i < |q| && q[i].isVip ==> i in vips
    requires forall i :: 0 <= i < |q| && !q[i].isVip ==> i in regulars
    ensures forall i :: 0 <= i < |q| ==> i in vips + regulars
    ensures var r := vips + regulars;
            forall a, b :: 0 <= a < b < |r| && q[r[b]].isVip ==> q[r[a]].isVip
    ensures var r := vips + regulars;
            forall a, b :: 0 <= a < b < |r| && q[r[a]].isVip == q[r[b]].isVip ==> r[a] < r[b]
  {
    var r := vips + regulars;
    var n := |vips|;
    forall i | 0 <= i < |q|
      ensures i in r
    {
      if q[i].isVip { assert i in vips; } else { assert i in regulars; }
    }
    forall a, b | 0 <= a < b < |r| && q[r[b]].isVip
      ensures q[r[a]].isVip
    {
      assert r[a] == vips[a];
    }
    forall a, b | 0 <= a < b < |r| && q[r[a]].isVip == q[r[b]].isVip
      ensures r[a] < r[b]
    {
      if b < n {
        assert r[a] == vips[a] && r[b] == vips[b];
      } else if a >= n {
        assert r[a] == regulars[a - n] && r[b] == regulars[b - n];
      }
    }
  }

  /** `FirstOrDefault(o => !o.IsAssigned)` over the queue positions `order`:
      the place within `order` of the first position whose order is still
      pending, or None. */
  function FirstPending(q: seq<Order>, order: seq<nat>): (r: Option<nat>)
    requires forall k :: 0 <= k < |order| ==> order[k] < |q|
    ensures r.None? <==> forall k :: 0 <= k < |order| ==> q[order[k]].isAssigned
    ensures r.Some? ==> r.value < |order| && !q[order[r.value]].isAssigned
    ensures r.Some? ==> forall k :: 0 <= k < r.value ==> q[order[k]].isAssigned
    decreases |order|
  {
    if order == [] then None
    else if !q[order[0]].isAssigned then Some(0)
    else
      match FirstPending(q, order[1..])
      case None => None
      case Some(p) => Some(p + 1)
  }

  /** No order of the queue is pending. */
  predicate NonePending(q: seq<Order>) {
    forall k :: 0 <= k < |q| ==> q[k].isAssigned
  }

  /** Position `i` holds the order the dispatcher should serve next: it is
      pending, it is a VIP order exactly when some pending VIP order exists,
      and every earlier order of the same priority has been served. */
  predicate IsNextOrder(q: seq<Order>, i: nat) {
    && i < |q| && !q[i].isAssigned
    && (q[i].isVip <==> exists k :: 0 <= k < |q| && q[k].isVip && !q[k].isAssigned)
    && forall k :: 0 <= k < i && q[k].isVip == q[i].isVip ==> q[k].isAssigned
  }

  /** At most one position is the next order, so the rule above determines
      the dispatcher's choice completely. */
  lemma {:induction false} NextOrderUnique(q: seq<Order>, i: nat, j: nat)
    requires IsNextOrder(q, i) && IsNextOrder(q, j)
    ensures i == j
  {
    assert q[i].isVip == q[j].isVip;
  }

  /** `_orderQueue.OrderByDescending(o => o.IsVip).FirstOrDefault(o => !o.IsAssigned)`:
      the first pending entry of the VIP-first view, given as a queue
      position. It is the earliest pending VIP order if there is one,
      otherwise the earliest pending order, and None when nothing in the
      queue is pending. */
  function SortedChoice(q: seq<Order>): (r: Option<nat>)
    ensures r.None? <==> NonePending(q)
    ensures r.Some? ==> IsNextOrder(q, r.value)
  {
    var sorted := VipFirst(q);
    match FirstPending(q, sorted)
    case None =>
      VipFirstIsStableSort(q);
      NothingPending(q, sorted);
      None
    case Some(p) =>
      VipFirstIsStableSort(q);
      ChoiceIsEarliest(q, sorted, p);
      Some(sorted[p])
  }

  /** The earliest position at or after `from` holding a pending order whose
      VIP flag is `vip`. */
  function ScanPending(q: seq<Order>, vip: bool, from: nat): (r: Option<nat>)
    requires from <= |q|
    ensures r.None? <==> forall k :: from <= k < |q| && q[k].isVip == vip ==> q[k].isAssigned
    ensures r.Some? ==> from <= r.value < |q| && q[r.value].isVip == vip && !q[r.value].isAssigned
    ensures r.Some? ==> forall k :: from <= k < r.value && q[k].isVip == vip ==> q[k].isAssigned
    decreases |q| - from
  {
    if from == |q| then None
    else if q[from].isVip == vip && !q[from].isAssigned then Some(from)
    else ScanPending(q, vip, from + 1)
  }

  /** The selection rule as a direct scan: the earliest pending VIP order,
      otherwise the earliest pending regular order. */
  function SelectOrder(q: seq<Order>): (r: Option<nat>)
    ensures r.None? <==> NonePending(q)
    ensures r.Some? ==> IsNextOrder(q, r.value)
  {
    match ScanPending(q, true, 0)
    case Some(i) => Some(i)
    case None => ScanPending(q, false, 0)
  }

  /** The direct scan and the sort-then-search pipeline of the source always
      pick the same order. */
  lemma {:induction false} SelectOrderMatchesSort(q: seq<Order>)
    ensures SelectOrder(q) == SortedChoice(q)
  {
    var a, b := SelectOrder(q), SortedChoice(q);
    if a.Some? && b.Some? {
      NextOrderUnique(q, a.value, b.value);
    }
  }

  /** If every position of the sorted view is served, so is every order. */
  lemma {:induction false} NothingPending(q: seq<Order>, sorted: seq<nat>)
    requires forall k :: 0 <= k < |sorted| ==> sorted[k] < |q| && q[sorted[k]].isAssigned
    requires forall i :: 0 <= i < |q| ==> i in sorted
    ensures NonePending(q)
  {
    forall k | 0 <= k < |q|
      ensures q[k].isAssigned
    {
      assert k in sorted;
    }
  }

  /** The first pending entry of the sorted view is the earliest pending order
      of the highest priority class that still has a pending order. */
  lemma {:induction false} ChoiceIsEarliest(q: seq<Order>, sorted: seq<nat>, p: nat)
    requires forall k :: 0 <= k < |sorted| ==> sorted[k] < |q|
    requires forall i :: 0 <= i < |q| ==> i in sorted
    requires forall a, b :: 0 <= a < b < |sorted| && q[sorted[b]].isVip ==> q[sorted[a]].isVip
    requires forall a, b :: 0 <= a < b < |sorted| && q[sorted[a]].isVip == q[sorted[b]].isVip ==> sorted[a] < sorted[b]
    requires p < |sorted| && !q[sorted[p]].isAssigned
    requires forall k :: 0 <= k < p ==> q[sorted[k]].isAssigned
    ensures IsNextOrder(q, sorted[p])
  {
    var c := sorted[p];
    if !q[c].isVip {
      forall k | 0 <= k < |q| && q[k].isVip
        ensures q[k].isAssigned
      {
        assert k in sorted;
        var m :| 0 <= m < |sorted| && sorted[m] == k;
        assert m < p;
      }
    }
    forall k | 0 <= k < c && q[k].isVip == q[c].isVip
      ensures q[k].isAssigned
    {
      assert k in sorted;
      var m :| 0 <= m < |sorted| && sorted[m] == k;
      assert m < p;
    }
  }

  /** `_drivers.Where(d => d.IsAvailable)`: the roster positions of the
      available drivers, in roster order. */
  function FreeDrivers(drivers: seq<Driver>): (r: seq<nat>)
    ensures forall k :: 0 <= k < |r| ==> r[k] < |drivers| && drivers[r[k]].isAvailable
  {
    IndicesWhere(drivers, IsAvailable)
  }

  /** The free list holds every available driver, in increasing roster order. */
  lemma {:induction false} FreeDriversExact(drivers: seq<Driver>)
    ensures forall i :: 0 <= i < |drivers| && drivers[i].isAvailable ==> i in FreeDrivers(drivers)
    ensures var r := FreeDrivers(drivers);
            forall k, m :: 0 <= k < m < |r| ==> r[k] < r[m]
  {
    IndicesWhereExact(drivers, IsAvailable);
  }

  /** No driver of the roster is available. */
  predicate NoFreeDriver(drivers: seq<Driver>) {
    forall i :: 0 <= i < |drivers| ==> !drivers[i].isAvailable
  }

  /** Position `i` holds the first available driver in roster order. */
  predicate IsFirstFree(drivers: seq<Driver>, i: nat) {
    && i < |drivers| && drivers[i].isAvailable
    && forall j :: 0 <= j < i ==> !drivers[j].isAvailable
  }

  /** The first available driver at or after roster position `from`. */
  function ScanFree(drivers: seq<Driver>, from: nat): (r: Option<nat>)
    requires from <= |drivers|
    ensures r.None? <==> forall i :: from <= i < |drivers| ==> !drivers[i].isAvailable
    ensures r.Some? ==> from <= r.value < |drivers| && drivers[r.value].isAvailable
    ensures r.Some? ==> forall i :: from <= i < r.value ==> !drivers[i].isAvailable
    decreases |drivers| - from
  {
    if from == |drivers| then None
    else if drivers[from].isAvailable then Some(from)
    else ScanFree(drivers, from + 1)
  }

  /** Two positions that both hold the first available driver are equal. */
  lemma {:induction false} FirstFreeUnique(drivers: seq<Driver>, i: nat, j: nat)
    requires IsFirstFree(drivers, i) && IsFirstFree(drivers, j)
    ensures i == j
  {
  }

  /** `freeDrivers.FirstOrDefault()`: the head of the free list. */
  function FirstFree(drivers: seq<Driver>): (r: Option<nat>)
    ensures r.None? <==> NoFreeDriver(drivers)
    ensures r.Some? ==> IsFirstFree(drivers, r.value)
  {
    var free := FreeDrivers(drivers);
    FreeDriversExact(drivers);
    if |free| == 0 then
      None
    else
      assert forall m :: 0 <= m < |free| ==> free[0] <= free[m];
      Some(free[0])
  }

  /** The head of the source's free list is the driver a direct scan of the
      roster finds first. */
  lemma {:induction false} FirstFreeMatchesScan(drivers: seq<Driver>)
    ensures FirstFree(drivers) == ScanFree(drivers, 0)
  {
    var a, b := FirstFree(drivers), ScanFree(drivers, 0);
    if a.Some? && b.Some? {
      FirstFreeUnique(drivers, a.value, b.value);
    }
  }
}
