/** A driver and the two steps of serving one order. */
module Drivers {
  import opened Orders

  datatype Driver = Driver(name: string, isAvailable: bool)

  /** A freshly constructed driver is available. */
  function NewDriver(name: string): (d: Driver)
    ensures d.name == name && d.isAvailable
  {
    Driver(name, true)
  }

  /** What `CompleteOrder` leaves behind: the driver free again, the order
      marked served, every other field untouched. */
  function CompleteOrder(d: Driver, o: Order): (r: (Driver, Order))
    ensures r.0.name == d.name && r.0.isAvailable
    ensures r.1.isAssigned
    ensures r.1.clientName == o.clientName && r.1.destination == o.destination
    ensures r.1.isVip == o.isVip
  {
    (d.(isAvailable := true), o.(isAssigned := true))
  }

  /** `AssignOrder` makes the driver busy and then completes the order inline,
      so the busy state never outlives the call. The source does not check
      that the driver was available or that the order was pending. */
  function AssignOrder(d: Driver, o: Order): (r: (Driver, Order))
    ensures r.0.name == d.name && r.0.isAvailable
    ensures r.1 == o.(isAssigned := true)
    ensures d.isAvailable ==> r.0 == d
  {
    var busy := d.(isAvailable := false);
    CompleteOrder(busy, o)
  }

  predicate IsAvailable(d: Driver) { d.isAvailable }
}
