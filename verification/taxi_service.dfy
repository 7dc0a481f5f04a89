/** `TaxiService`: the driver roster, the queue of waiting orders, and the
    matching loop that runs each time an order is created. */
module TaxiService {
  import opened Options
  import opened Seqs
  import opened Orders
  import opened Drivers
  import opened Selection

  /** The roster in registration order and the pending queue, oldest first.
      Drivers and orders are identified by their position. */
  datatype Service = Service(drivers: seq<Driver>, queue: seq<Order>)

  /** One entry of the dispatch trace, one per `AssignOrder` call: the roster
      position of the driver and the order as it was handed over. */
  datatype Assignment = Assignment(driver: nat, order: Order)

  /** One pass of the loop in `AssignOrders`: the queue position served, the
      roster position that served it, and the state afterwards. */
  datatype Step = Step(position: nat, driver: nat, next: Service)

  /** A service with no drivers and no orders, as `new TaxiService()` builds it. */
  const Initial: Service := Service([], [])

  /** The orders carried by a dispatch trace, in order. */
  function Dispatched(log: seq<Assignment>): (r: seq<Order>)
    ensures |r| == |log|
    ensures forall k :: 0 <= k < |log| ==> r[k] == log[k].order
  {
    if log == [] then [] else [log[0].order] + Dispatched(log[1..])
  }

  /** `AddDriver` appends to the roster; earlier drivers keep their positions
      and the queue is untouched. */
  function AddDriver(s: Service, d: Driver): (r: Service)
    ensures |r.drivers| == |s.drivers| + 1 && r.drivers[|s.drivers|] == d
    ensures r.drivers[..|s.drivers|] == s.drivers
    ensures r.queue == s.queue
  {
    s.(drivers := s.drivers + [d])
  }

  /** A newly registered driver never takes precedence over an earlier free
      one: the first free driver is unchanged unless there was none. */
  lemma {:induction false} AddDriverKeepsFirstFree(s: Service, d: Driver)
    ensures forall i :: IsFirstFree(s.drivers, i) ==> IsFirstFree(AddDriver(s, d).drivers, i)
    ensures NoFreeDriver(s.drivers) && d.isAvailable ==> IsFirstFree(AddDriver(s, d).drivers, |s.drivers|)
    ensures NoFreeDriver(s.drivers) && !d.isAvailable ==> NoFreeDriver(AddDriver(s, d).drivers)
  {
    var r := AddDriver(s, d).drivers;
    assert forall i :: 0 <= i < |s.drivers| ==> r[i] == s.drivers[i];
  }

  /** The queue rebuilt from the orders that are still unassigned
      (`new Queue<Order>(_orderQueue.Where(o => !o.IsAssigned))`). */
  function Rebuild(q: seq<Order>): (r: seq<Order>)
    ensures AllPending(r)
    ensures |r| <= |q|
  {
    Filter(q, IsPending)
  }

  /** Marking one order of a fully pending queue assigned and rebuilding the
      queue removes exactly that order and keeps the others in order. */
  lemma {:induction false} RebuildRemovesServed(q: seq<Order>, i: nat)
    requires AllPending(q) && i < |q|
    ensures Rebuild(MarkAssigned(q, i)) == q[..i] + q[i + 1..]
  {
    var m := MarkAssigned(q, i);
    var rest := q[..i] + q[i + 1..];
    FilterRemoveDropped(m, i, IsPending);
    assert m[..i] + m[i + 1..] == rest;
    forall k | 0 <= k < |rest|
      ensures IsPending(rest[k])
    {
      if k < i { assert rest[k] == q[k]; } else { assert rest[k] == q[k + 1]; }
    }
    FilterKeepsAll(rest, IsPending);
  }

  /** What one dispatch does to the state: driver `di`, being available,
      comes back unchanged, and the rebuilt queue loses the served order. */
  lemma {:induction false} ServeFacts(s: Service, i: nat, di: nat)
    requires i < |s.queue| && di < |s.drivers| && s.drivers[di].isAvailable
    ensures var served := AssignOrder(s.drivers[di], s.queue[i]);
            && s.drivers[di := served.0] == s.drivers
            && |Rebuild(s.queue[i := served.1])| < |s.queue|
            && (AllPending(s.queue) ==> Rebuild(s.queue[i := served.1]) == s.queue[..i] + s.queue[i + 1..])
  {
    var served := AssignOrder(s.drivers[di], s.queue[i]);
    assert s.queue[i := served.1] == MarkAssigned(s.queue, i);
    FilterShrinks(MarkAssigned(s.queue, i), IsPending, i);
    if AllPending(s.queue) {
      RebuildRemovesServed(s.queue, i);
    }
  }

  /** One pass of the `while` loop in `AssignOrders`, or None where the loop
      stops: the queue is empty, no driver is free, or no queued order is
      pending (the `order == null` break, which a fully pending queue never
      reaches). */
  function AssignStep(s: Service): (r: Option<Step>)
    ensures r.None? <==> NoFreeDriver(s.drivers) || NonePending(s.queue)
    ensures AllPending(s.queue) ==> (r.None? <==> NoFreeDriver(s.drivers) || s.queue == [])
    ensures r.Some? ==> IsNextOrder(s.queue, r.value.position)
    ensures r.Some? ==> IsFirstFree(s.drivers, r.value.driver)
    ensures r.Some? ==> r.value.next.drivers == s.drivers
    ensures r.Some? ==> |r.value.next.queue| < |s.queue| && AllPending(r.value.next.queue)
    ensures r.Some? && AllPending(s.queue) ==>
              r.value.next.queue == s.queue[..r.value.position] + s.queue[r.value.position + 1..]
  {
    match ScanFree(s.drivers, 0)
    case None => None
    case Some(di) =>
      if |s.queue| == 0 then None
      else
        match SelectOrder(s.queue)
        case None => None
        case Some(i) =>
          var served := AssignOrder(s.drivers[di], s.queue[i]);
          ServeFacts(s, i, di);
          Some(Step(i, di, Service(s.drivers[di := served.0], Rebuild(s.queue[i := served.1]))))
  }

  /** `AssignOrders`: repeat passes until one stops, returning the final state
      and the dispatch trace in dispatch order. Every pass
      removes at least the order it served, so the loop ends with the roster
      as it found it, and, for a fully pending queue, with an empty queue or
      no free driver. */
  function AssignOrders(s: Service): (r: (Service, seq<Assignment>))
    ensures r.0.drivers == s.drivers
    ensures NoFreeDriver(s.drivers) ==> r.0 == s && r.1 == []
    ensures AllPending(s.queue) ==> AllPending(r.0.queue)
    ensures AllPending(s.queue) ==> r.0.queue == [] || NoFreeDriver(s.drivers)
    decreases |s.queue|
  {
    match AssignStep(s)
    case None => (s, [])
    case Some(step) =>
      var rest := AssignOrders(step.next);
      (rest.0, [Assignment(step.driver, s.queue[step.position])] + rest.1)
  }

  /** Completion is synchronous, so the first free driver in roster order is
      free again on every pass and receives every order of the run. */
  lemma {:induction false} AssignOrdersUsesFirstFree(s: Service)
    ensures forall k :: 0 <= k < |AssignOrders(s).1| ==> IsFirstFree(s.drivers, AssignOrders(s).1[k].driver)
    decreases |s.queue|
  {
    match AssignStep(s)
    case None =>
    case Some(step) =>
      AssignOrdersUsesFirstFree(step.next);
      var rest := AssignOrders(step.next);
      var log := AssignOrders(s).1;
      assert log == [Assignment(step.driver, s.queue[step.position])] + rest.1;
      assert step.next.drivers == s.drivers;
      forall k | 0 <= k < |log|
        ensures IsFirstFree(s.drivers, log[k].driver)
      {
        if k > 0 { assert log[k] == rest.1[k - 1]; }
      }
  }

  /** `CreateOrder`: enqueue a new order, then run the matching loop. With no
      free driver the new order simply waits at the back of the queue; with
      one, a fully pending queue is emptied. The roster comes back unchanged. */
  function CreateOrder(s: Service, clientName: string, destination: string, isVip: bool)
    : (r: (Service, seq<Assignment>))
    ensures r.0.drivers == s.drivers
    ensures NoFreeDriver(s.drivers) ==>
              r.0.queue == s.queue + [NewOrder(clientName, destination, isVip)] && r.1 == []
    ensures AllPending(s.queue) && !NoFreeDriver(s.drivers) ==> r.0.queue == []
    ensures AllPending(s.queue) ==> AllPending(r.0.queue)
  {
    var queued := s.queue + [NewOrder(clientName, destination, isVip)];
    assert AllPending(s.queue) ==> AllPending(queued);
    AssignOrders(s.(queue := queued))
  }

  /** The orders `CreateOrder` dispatches when some driver is free: every VIP
      order of the queue (the new one included) oldest first, then every
      regular order oldest first. */
  lemma {:induction false} CreateOrderDispatchOrder(s: Service, clientName: string, destination: string, isVip: bool)
    requires AllPending(s.queue) && !NoFreeDriver(s.drivers)
    ensures var queued := s.queue + [NewOrder(clientName, destination, isVip)];
            Dispatched(CreateOrder(s, clientName, destination, isVip).1)
            == Filter(queued, IsVip) + Filter(queued, IsRegular)
  {
    var queued := s.queue + [NewOrder(clientName, destination, isVip)];
    assert AllPending(queued);
    DispatchOrder(s.(queue := queued));
  }

  /** A VIP pass: serving the earliest VIP order takes it off the front of the
      VIP orders and leaves the regular orders as they were. */
  lemma {:induction false} VipPass(q: seq<Order>, i: nat)
    requires i < |q| && q[i].isVip
    requires forall k :: 0 <= k < i ==> !q[k].isVip
    ensures Filter(q, IsVip) == [q[i]] + Filter(q[..i] + q[i + 1..], IsVip)
    ensures Filter(q, IsRegular) == Filter(q[..i] + q[i + 1..], IsRegular)
  {
    FilterRemoveFirstKept(q, i, IsVip);
    FilterRemoveDropped(q, i, IsRegular);
  }

  /** A regular pass happens only when no VIP order is queued, on the oldest
      order: it comes off the front of the regular orders. */
  lemma {:induction false} RegularPass(q: seq<Order>)
    requires |q| > 0
    requires forall k :: 0 <= k < |q| ==> !q[k].isVip
    ensures Filter(q, IsVip) == [] == Filter(q[1..], IsVip)
    ensures Filter(q, IsRegular) == [q[0]] + Filter(q[1..], IsRegular)
  {
    FilterKeepsNone(q, IsVip);
    FilterKeepsNone(q[1..], IsVip);
  }

  /** One pass over a fully pending queue takes the served order off the
      front of the VIP-then-regular listing and leaves the rest of it, in
      order, as the listing of the queue that remains. */
  lemma {:induction false} PassTakesFront(q: seq<Order>, i: nat)
    requires AllPending(q) && IsNextOrder(q, i)
    ensures Filter(q, IsVip) + Filter(q, IsRegular)
            == [q[i]] + (Filter(q[..i] + q[i + 1..], IsVip) + Filter(q[..i] + q[i + 1..], IsRegular))
  {
    if q[i].isVip {
      forall k | 0 <= k < i
        ensures !q[k].isVip
      {
        assert !q[k].isAssigned;
      }
      VipPass(q, i);
    } else {
      assert !q[0].isAssigned && !q[0].isVip;
      assert i == 0;
      forall k | 0 <= k < |q|
        ensures !q[k].isVip
      {
        assert !q[k].isAssigned;
      }
      RegularPass(q);
      assert q[..i] + q[i + 1..] == q[1..];
    }
  }

  /** The order in which a run of the loop dispatches a fully pending queue
      when some driver is free: all VIP orders oldest first, then all regular
      orders oldest first, nothing left behind. */
  lemma {:induction false} DispatchOrder(s: Service)
    requires AllPending(s.queue) && !NoFreeDriver(s.drivers)
    ensures AssignOrders(s).0.queue == []
    ensures Dispatched(AssignOrders(s).1) == Filter(s.queue, IsVip) + Filter(s.queue, IsRegular)
    decreases |s.queue|
  {
    var q := s.queue;
    match AssignStep(s)
    case None =>
      assert |q| == 0;
    case Some(step) =>
      var i := step.position;
      DispatchOrder(step.next);
      var rest := AssignOrders(step.next);
      assert AssignOrders(s) == (rest.0, [Assignment(step.driver, q[i])] + rest.1);
      assert Dispatched([Assignment(step.driver, q[i])] + rest.1) == [q[i]] + Dispatched(rest.1);
      PassTakesFront(q, i);
  }

  /** Every order of a fully pending queue ends up exactly once either in the
      dispatch trace or in the queue left behind: none is lost, none is
      dispatched twice. */
  lemma {:induction false} AssignOrdersConserves(s: Service)
    requires AllPending(s.queue)
    ensures multiset(Dispatched(AssignOrders(s).1)) + multiset(AssignOrders(s).0.queue) == multiset(s.queue)
  {
    if !NoFreeDriver(s.drivers) {
      DispatchOrder(s);
      FilterPartition(s.queue, IsVip, IsRegular);
    }
  }

  /** Between calls: no queued order has been served and every driver on the
      roster is available, however it was built. */
  predicate Valid(s: Service) {
    AllPending(s.queue) && forall i :: 0 <= i < |s.drivers| ==> s.drivers[i].isAvailable
  }

  /** The state `new TaxiService()` builds is valid. */
  lemma InitialValid()
    ensures Valid(Initial)
  {
  }

  /** Both public operations keep the state valid, `AddDriver` when given a
      driver built by `NewDriver`; after `CreateOrder` the queue is empty
      unless the roster is. */
  lemma {:induction false} ValidPreserved(s: Service, name: string, clientName: string, destination: string, isVip: bool)
    requires Valid(s)
    ensures Valid(AddDriver(s, NewDriver(name)))
    ensures Valid(CreateOrder(s, clientName, destination, isVip).0)
    ensures CreateOrder(s, clientName, destination, isVip).0.queue == [] || s.drivers == []
  {
    var r := AddDriver(s, NewDriver(name));
    assert forall i :: 0 <= i < |s.drivers| ==> r.drivers[i] == s.drivers[i];
    if s.drivers != [] {
      assert s.drivers[0].isAvailable;
    }
  }
}
