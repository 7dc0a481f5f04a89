/** Worked runs of the dispatcher on small concrete states. */
module Scenarios {
  import opened Seqs
  import opened Orders
  import opened Drivers
  import opened Selection
  import opened TaxiService

  /** Two free drivers and one regular order: the first driver serves it,
      comes back free, and the queue is empty. */
  lemma {:induction false} FirstDriverServes()
    ensures var s := AddDriver(AddDriver(Initial, NewDriver("A")), NewDriver("B"));
            var r := CreateOrder(s, "X", "Downtown", false);
            && r.0.queue == []
            && r.0.drivers == [NewDriver("A"), NewDriver("B")]
            && r.1 == [Assignment(0, NewOrder("X", "Downtown", false))]
  {
    var s := AddDriver(AddDriver(Initial, NewDriver("A")), NewDriver("B"));
    var o := NewOrder("X", "Downtown", false);
    assert s.drivers == [NewDriver("A"), NewDriver("B")];
    assert IsFirstFree(s.drivers, 0);
    var r := CreateOrder(s, "X", "Downtown", false);
    CreateOrderDispatchOrder(s, "X", "Downtown", false);
    assert s.queue + [o] == [o];
    FilterSingleton(o, IsVip);
    FilterSingleton(o, IsRegular);
    assert Dispatched(r.1) == [o];
    AssignOrdersUsesFirstFree(s.(queue := [o]));
    assert IsFirstFree(s.drivers, r.1[0].driver);
    assert r.1[0] == Assignment(0, o);
  }

  /** A regular order waits while there is no driver; once a driver joins,
      a later VIP order is dispatched before it. */
  lemma {:induction false} VipOvertakesEarlierRegular()
    ensures var waiting := CreateOrder(Initial, "X", "Airport", false).0;
            var s := AddDriver(waiting, NewDriver("A"));
            var r := CreateOrder(s, "Y", "Mall", true);
            && waiting.queue == [NewOrder("X", "Airport", false)]
            && r.0.queue == []
            && Dispatched(r.1) == [NewOrder("Y", "Mall", true), NewOrder("X", "Airport", false)]
  {
    var x := NewOrder("X", "Airport", false);
    var y := NewOrder("Y", "Mall", true);
    var waiting := CreateOrder(Initial, "X", "Airport", false).0;
    assert waiting.queue == [x];
    var s := AddDriver(waiting, NewDriver("A"));
    assert IsFirstFree(s.drivers, 0);
    CreateOrderDispatchOrder(s, "Y", "Mall", true);
    var queued := [x, y];
    assert s.queue + [y] == queued;
    assert queued == [x] + [y];
    FilterAppend([x], [y], IsVip);
    FilterAppend([x], [y], IsRegular);
    FilterSingleton(x, IsVip);
    FilterSingleton(y, IsVip);
    FilterSingleton(x, IsRegular);
    FilterSingleton(y, IsRegular);
  }
}
